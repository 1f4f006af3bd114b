/** The extension's `formatCurrency` helper: the placeholder money format
    used for the price header, the price breakdown and the accept label. */
module Currency {
  import opened Wrappers
  import opened JsParseInt

  /** A monetary amount as the extension receives it: absent (`undefined`),
      `null`, or the amount string the host or the offer carries. */
  datatype Amount = Undefined | Null | Str(text: string)

  /** `!amount` in JavaScript: `undefined`, `null` and the empty string are
      falsy; every non-empty string is truthy, `"0"` and `" "` included. */
  function IsFalsy(a: Amount): (b: bool)
    ensures b <==> !(a.Str? && |a.text| > 0)
  {
    a.Undefined? || a.Null? || a == Str("")
  }

  /** "Free" when the amount is falsy or its leading integer, as
      `parseInt(amount, 10)` reads it, is zero; otherwise the raw amount
      behind a dollar sign, with no rounding or reformatting. */
  function FormatCurrency(a: Amount): (r: string)
    ensures IsFalsy(a) ==> r == "Free"
    ensures a.Str? && ParseInt(a.text) == Some(0) ==> r == "Free"
    ensures a.Str? && a.text != "" && ParseInt(a.text) != Some(0) ==> r == "$" + a.text
    ensures r == "Free" || (a.Str? && r == "$" + a.text)
    ensures r != "Free" <==> |r| > 0 && r[0] == '$'
  {
    match a
    case Str(s) => if s == "" || ParseInt(s) == Some(0) then "Free" else "$" + s
    case _ => "Free"
  }

  /** White space, an optional sign and a run of zeros make the amount free,
      whatever follows the run: `"0"`, `"00"`, `"-0"`, `"0.99"`, `" 0 USD"`. */
  lemma FreeForZeroNumeral(s: string, ws: string, sign: string, zeros: string, rest: string)
    requires s == ws + sign + zeros + rest
    requires AllWhiteSpace(ws) && IsSignPart(sign)
    requires |zeros| > 0 && forall k :: 0 <= k < |zeros| ==> zeros[k] == '0'
    requires |rest| == 0 || !IsDigit(rest[0])
    ensures FormatCurrency(Str(s)) == "Free"
  {
    ParseIntOfNumeral(s, ws, sign, zeros, rest);
    DigitsValueZeroIff(zeros);
  }

  /** A leading integer with a non-zero digit keeps the raw amount: `"1200"`
      gives `"$1200"`, `"-5"` gives `"$-5"`, `"1e3"` gives `"$1e3"`. */
  lemma PricedForNonZeroNumeral(s: string, ws: string, sign: string, d: string, rest: string, k: nat)
    requires s == ws + sign + d + rest
    requires AllWhiteSpace(ws) && IsSignPart(sign)
    requires AllDigits(d) && k < |d| && d[k] != '0'
    requires |rest| == 0 || !IsDigit(rest[0])
    ensures FormatCurrency(Str(s)) == "$" + s
  {
    ParseIntOfNumeral(s, ws, sign, d, rest);
    DigitsValueZeroIff(d);
  }

  /** An amount with no leading integer is NaN to `parseInt`, and NaN is not
      zero, so the raw text is kept: `"abc"` gives `"$abc"`, `"."` gives `"$."`. */
  lemma PricedForNonNumeral(s: string, ws: string, sign: string, rest: string)
    requires s == ws + sign + rest
    requires AllWhiteSpace(ws) && IsSignPart(sign)
    requires |rest| == 0 || !IsDigit(rest[0])
    requires sign == "" && |rest| > 0 ==> !IsSign(rest[0]) && !IsWhiteSpace(rest[0])
    requires s != ""
    ensures FormatCurrency(Str(s)) == "$" + s
  {
    ParseIntOfNonNumeral(s, ws, sign, rest);
  }

  /** For a non-empty amount string, "Free" is produced exactly when the
      leading digit run that `parseInt` reads is non-empty and all zeros. */
  lemma FreeIffLeadingZeros(s: string)
    requires s != ""
    ensures FormatCurrency(Str(s)) == "Free" <==>
              exists ws, sign, zeros, rest ::
                && s == ws + sign + zeros + rest
                && AllWhiteSpace(ws) && IsSignPart(sign)
                && |zeros| > 0 && (forall k :: 0 <= k < |zeros| ==> zeros[k] == '0')
                && (|rest| == 0 || !IsDigit(rest[0]))
  {
    var ws, sign, d, rest := NumeralSplit(s);
    if FormatCurrency(Str(s)) == "Free" {
      assert |d| > 0;
      DigitsValueZeroIff(d);
      ParseIntOfNumeral(s, ws, sign, d, rest);
      assert s == ws + sign + d + rest;
    } else {
      forall ws', sign', zeros, rest' |
        && s == ws' + sign' + zeros + rest'
        && AllWhiteSpace(ws') && IsSignPart(sign')
        && |zeros| > 0 && (forall k :: 0 <= k < |zeros| ==> zeros[k] == '0')
        && (|rest'| == 0 || !IsDigit(rest'[0]))
        ensures false
      {
        FreeForZeroNumeral(s, ws', sign', zeros, rest');
      }
    }
  }

  /** Amounts whose leading integer reads as zero render as "Free": zero
      written with several digits, a fraction below one, a negative zero,
      zero after white space, and the `0` in front of a hexadecimal `x`. */
  lemma ZeroReadingsAreFree(s: string)
    requires s in {"0", "00", "0.99", "-0", " 0", "0x1A"}
    ensures FormatCurrency(Str(s)) == "Free"
  {
    if s == "0" {
      FreeForZeroNumeral(s, "", "", "0", "");
    } else if s == "00" {
      FreeForZeroNumeral(s, "", "", "00", "");
    } else if s == "0.99" {
      FreeForZeroNumeral(s, "", "", "0", ".99");
    } else if s == "-0" {
      FreeForZeroNumeral(s, "", "-", "0", "");
    } else if s == " 0" {
      FreeForZeroNumeral(s, " ", "", "0", "");
    } else {
      FreeForZeroNumeral(s, "", "", "0", "x1A");
    }
  }

  /** An amount with a non-zero leading integer keeps its raw text, sign
      and fraction included: nothing is rounded. */
  lemma NumberReadingsKeepRawText(s: string)
    requires s in {"1200", "12.50", "-5"}
    ensures FormatCurrency(Str(s)) == "$" + s
  {
    if s == "1200" {
      PricedForNonZeroNumeral(s, "", "", "1200", "", 0);
    } else if s == "12.50" {
      PricedForNonZeroNumeral(s, "", "", "12", ".50", 0);
    } else {
      PricedForNonZeroNumeral(s, "", "-", "5", "", 0);
    }
  }

  /** Text that is not a number at all is shown as a price too, because
      NaN is not zero. */
  lemma TextReadingsKeepRawText(s: string)
    requires s in {"abc", "$5"}
    ensures FormatCurrency(Str(s)) == "$" + s
  {
    if s == "abc" {
      PricedForNonNumeral(s, "", "", "abc");
    } else {
      PricedForNonNumeral(s, "", "", "$5");
    }
  }
}
