/**
 * The two string-to-number conversions the stats endpoints apply to their
 * `range` parameter: `Number(s)` in the service and `parseInt(s, 10)` in the
 * inline handler. Both skip JavaScript white space (the WhiteSpace and
 * LineTerminator code points of ECMA-262, sections 12.2 and 12.3). NaN is
 * `None`.
 */
module Numbers {

  import opened Wrappers
  import Date

  predicate IsSpace(ch: char)
  {
    ch == '\t' || ch == '\n' || ch == '\U{B}' || ch == '\U{C}' || ch == '\r' || ch == ' '
    || ch == '\U{A0}' || ch == '\U{1680}' || ('\U{2000}' <= ch <= '\U{200A}')
    || ch == '\U{2028}' || ch == '\U{2029}' || ch == '\U{202F}' || ch == '\U{205F}'
    || ch == '\U{3000}' || ch == '\U{FEFF}'
  }

  /** `s` without its leading white space. */
  function TrimStart(s: string): (r: string)
    ensures |r| <= |s| && r == s[|s| - |r|..]
    ensures forall i :: 0 <= i < |s| - |r| ==> IsSpace(s[i])
    ensures r != [] ==> !IsSpace(r[0])
  {
    if |s| > 0 && IsSpace(s[0]) then TrimStart(s[1..]) else s
  }

  /** `s` without its trailing white space. */
  function TrimEnd(s: string): (r: string)
    ensures |r| <= |s| && r == s[..|r|]
    ensures forall i :: |r| <= i < |s| ==> IsSpace(s[i])
    ensures r != [] ==> !IsSpace(r[|r| - 1])
  {
    if |s| > 0 && IsSpace(s[|s| - 1]) then TrimEnd(s[..|s| - 1]) else s
  }

  predicate IsDigitString(s: string)
  {
    |s| > 0 && Date.AllDigits(s)
  }

  /** The value of `[+|-]digits`, and None for any other string. */
  function SignedDecimal(s: string): (r: Option<int>)
    ensures r.Some? ==> |s| > 0 && (Date.IsDigit(s[0]) || s[0] == '+' || s[0] == '-')
    ensures r.Some? ==> Date.IsDigit(s[|s| - 1])
  {
    if IsDigitString(s) then Some(Date.DigitsValue(s))
    else if |s| > 1 && (s[0] == '+' || s[0] == '-') && IsDigitString(s[1..]) then
      var v: int := Date.DigitsValue(s[1..]);
      Some(if s[0] == '-' then -v else v)
    else None
  }

  /**
   * `Number(s)` on the strings that denote a decimal integer: after trimming,
   * the empty string is 0 and `[+|-]digits` its value. Everything else is
   * None; for most strings that is NaN, see README for the forms not modelled.
   */
  function NumberOf(s: string): (r: Option<int>)
  {
    var t := TrimEnd(TrimStart(s));
    if t == "" then Some(0) else SignedDecimal(t)
  }

  /** The longest prefix of `s` made of decimal digits. */
  function DigitPrefix(s: string): (r: string)
    ensures |r| <= |s| && r == s[..|r|] && Date.AllDigits(r)
    ensures |r| < |s| ==> !Date.IsDigit(s[|r|])
  {
    if |s| > 0 && Date.IsDigit(s[0]) then [s[0]] + DigitPrefix(s[1..]) else []
  }

  /**
   * `parseInt(s, 10)`: leading white space is skipped, then an optional
   * sign, then the longest run of decimal digits is read and the rest of the
   * string ignored; without a digit the result is NaN.
   */
  function ParseInt(s: string): (r: Option<int>)
  {
    var t := TrimStart(s);
    var negative := |t| > 0 && t[0] == '-';
    var rest := if |t| > 0 && (t[0] == '+' || t[0] == '-') then t[1..] else t;
    var digits := DigitPrefix(rest);
    var v: int := if digits == [] then 0 else Date.DigitsValue(digits);
    if digits == [] then None else Some(if negative then -v else v)
  }

  /** A string without white space is its own trimming. */
  lemma TrimUnspaced(s: string)
    requires |s| > 0 && !IsSpace(s[0]) && !IsSpace(s[|s| - 1])
    ensures TrimStart(s) == s && TrimEnd(s) == s
  {
  }

  /** A digit string is its own digit prefix. */
  lemma {:induction false} DigitPrefixOfDigits(s: string)
    requires Date.AllDigits(s)
    ensures DigitPrefix(s) == s
  {
    if |s| > 0 {
      DigitPrefixOfDigits(s[1..]);
    }
  }

  /** On a signed decimal integer, `Number` and `parseInt` agree. */
  lemma NumberAgreesWithParseInt(s: string)
    requires SignedDecimal(s).Some?
    ensures NumberOf(s) == SignedDecimal(s) && ParseInt(s) == SignedDecimal(s)
  {
    TrimUnspaced(s);
    if IsDigitString(s) {
      DigitPrefixOfDigits(s);
    } else {
      DigitPrefixOfDigits(s[1..]);
    }
  }

  /** On a number followed by other text they differ: `Number` gives NaN ... */
  lemma NumberRejectsSuffix()
    ensures NumberOf("7days") == None
  {
    var s := "7days";
    assert s[0] == '7' && s[1] == 'd' && s[4] == 's';
    TrimUnspaced(s);
    assert !Date.AllDigits(s);
  }

  /** ... while `parseInt` reads the leading number. */
  lemma ParseIntReadsPrefix()
    ensures ParseInt("7days") == Some(7)
  {
    var s := "7days";
    assert s[0] == '7' && s[1] == 'd' && s[1..] == "days";
    assert TrimStart(s) == s;
    assert DigitPrefix(s[1..]) == [];
    assert DigitPrefix(s) == "7";
    assert Date.DigitsValue("7") == 7 by {
      assert "7"[..0] == [];
    }
  }
}
