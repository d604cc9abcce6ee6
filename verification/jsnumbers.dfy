/** The two ways the views turn a piece of a date into a number:
    `parseInt(str)` (level 1, month) and unary `+str` (level 2, year, month and day).
    Only integral results and NaN arise from the forms modelled here. */
module JsNumbers {
  import opened Options
  import opened Strings

  /** A JavaScript number as produced by the date parsing: NaN or an integer. */
  datatype JsNumber = NaN | Int(value: int)

  /** `StrWhiteSpaceChar`: the white space and line terminators that `parseInt`
      skips and unary `+` trims. */
  predicate IsWhiteSpace(c: char) {
    || c == '\t' || c == '\n' || c == '\U{B}' || c == '\U{C}' || c == '\r'
    || c == ' ' || c == '\U{A0}' || c == '\U{1680}' || '\U{2000}' <= c <= '\U{200A}'
    || c == '\U{2028}' || c == '\U{2029}' || c == '\U{202F}' || c == '\U{205F}'
    || c == '\U{3000}' || c == '\U{FEFF}'
  }

  function TrimStart(s: string): (t: string)
    ensures |t| <= |s| && t == s[|s| - |t|..]
    ensures |t| > 0 ==> !IsWhiteSpace(t[0])
    ensures forall i :: 0 <= i < |s| - |t| ==> IsWhiteSpace(s[i])
    decreases |s|
  {
    if |s| > 0 && IsWhiteSpace(s[0]) then TrimStart(s[1..]) else s
  }

  function TrimEnd(s: string): (t: string)
    ensures |t| <= |s| && t == s[..|t|]
    ensures |t| > 0 ==> !IsWhiteSpace(t[|t| - 1])
    ensures forall i :: |t| <= i < |s| ==> IsWhiteSpace(s[i])
    decreases |s|
  {
    if |s| > 0 && IsWhiteSpace(s[|s| - 1]) then TrimEnd(s[..|s| - 1]) else s
  }

  /** `parseInt(s)` without a radix: skip leading white space, take an optional sign,
      read hexadecimal after "0x"/"0X" and decimal otherwise, and convert the longest
      run of digits; NaN when that run is empty. Trailing characters are ignored. */
  function ParseInt(s: string): JsNumber {
    var t := TrimStart(s);
    var negative := |t| > 0 && t[0] == '-';
    var u := if |t| > 0 && (t[0] == '-' || t[0] == '+') then t[1..] else t;
    var hex := |u| >= 2 && u[0] == '0' && (u[1] == 'x' || u[1] == 'X');
    var radix := if hex then 16 else 10;
    var ds := LeadingDigits(if hex then u[2..] else u, radix);
    if |ds| == 0 then NaN
    else
      var v: int := DigitsValue(ds, radix);
      Int(if negative then -v else v)
  }

  /** Unary `+s` on a string: trim white space at both ends, then read what is left
      as a numeric literal. */
  function ToNumber(s: string): JsNumber {
    NumberOfTrimmed(TrimEnd(TrimStart(s)))
  }

  /** A trimmed string as a numeric literal: the empty string is 0; "0x"/"0o"/"0b"
      (either case) followed only by digits of that base is an unsigned integer;
      otherwise an optional sign followed only by decimal digits; anything else is NaN. */
  function NumberOfTrimmed(t: string): JsNumber {
    if |t| == 0 then Int(0)
    else if |t| > 2 && t[0] == '0' && RadixOfPrefix(t[1]) > 0 && AllDigits(t[2..], RadixOfPrefix(t[1])) then
      Int(DigitsValue(t[2..], RadixOfPrefix(t[1])))
    else
      var negative := t[0] == '-';
      var u := if t[0] == '-' || t[0] == '+' then t[1..] else t;
      if IsDecimal(u) then
        var v: int := DigitsValue(u, 10);
        Int(if negative then -v else v)
      else NaN
  }

  /** The base named by the letter after a leading "0" in a non-decimal literal, 0 if none. */
  function RadixOfPrefix(c: char): nat {
    if c == 'x' || c == 'X' then 16
    else if c == 'o' || c == 'O' then 8
    else if c == 'b' || c == 'B' then 2
    else 0
  }

  /** `parseInt(parts[i])`, where reading past the end gives `undefined` and
      `parseInt(undefined)` is NaN. */
  function ParseIntAt(parts: seq<string>, i: nat): JsNumber {
    if i < |parts| then ParseInt(parts[i]) else NaN
  }

  /** `+parts[i]`, where `+undefined` is NaN. */
  function ToNumberAt(parts: seq<string>, i: nat): JsNumber {
    if i < |parts| then ToNumber(parts[i]) else NaN
  }

  lemma {:induction false} LeadingDigitsOfDigits(ds: string, rest: string, radix: nat)
    requires AllDigits(ds, radix)
    requires |rest| == 0 || !IsDigit(rest[0], radix)
    ensures LeadingDigits(ds + rest, radix) == ds
    decreases |ds|
  {
    var s := ds + rest;
    if |ds| > 0 {
      assert s[0] == ds[0] && IsDigit(s[0], radix);
      assert s[1..] == ds[1..] + rest;
      assert AllDigits(ds[1..], radix) by {
        forall i | 0 <= i < |ds| - 1
          ensures IsDigit(ds[1..][i], radix)
        {
          assert ds[1..][i] == ds[i + 1];
        }
      }
      LeadingDigitsOfDigits(ds[1..], rest, radix);
      assert LeadingDigits(s, radix) == [ds[0]] + ds[1..];
    } else {
      assert s == rest;
    }
  }

  /** `parseInt` reads a decimal prefix and ignores what follows the digits
      (unless an "x" right after a lone "0" turns the prefix hexadecimal). */
  lemma {:induction false} ParseIntOfDecimal(ds: string, rest: string)
    requires IsDecimal(ds)
    requires |rest| == 0 || (!IsDigit(rest[0], 10) && rest[0] != 'x' && rest[0] != 'X')
    ensures ParseInt(ds + rest) == Int(DigitsValue(ds, 10))
  {
    var s := ds + rest;
    assert s[0] == ds[0] && !IsWhiteSpace(s[0]);
    assert TrimStart(s) == s;
    if |ds| >= 2 {
      assert s[1] == ds[1];
    } else if |rest| > 0 {
      assert s[1] == rest[0];
    }
    LeadingDigitsOfDigits(ds, rest, 10);
  }

  /** Unary `+` reads a decimal string as its value. */
  lemma {:induction false} ToNumberOfDecimal(ds: string)
    requires IsDecimal(ds)
    ensures ToNumber(ds) == Int(DigitsValue(ds, 10))
  {
    assert !IsWhiteSpace(ds[0]) && !IsWhiteSpace(ds[|ds| - 1]);
    assert TrimStart(ds) == ds;
    assert TrimEnd(ds) == ds;
    if |ds| > 2 && ds[0] == '0' {
      assert RadixOfPrefix(ds[1]) == 0;
    }
  }

  /** A piece of nothing but white space (the empty piece of "2010--05", say) is 0 to
      unary `+` and NaN to `parseInt`. */
  lemma BlankPieceParses(s: string)
    requires forall i :: 0 <= i < |s| ==> IsWhiteSpace(s[i])
    ensures ToNumber(s) == Int(0) && ParseInt(s) == NaN
  {
    assert TrimStart(s) == "";
  }

  /** Trimming the end stops at the last character that is not white space. */
  lemma TrimEndKeeps(s: string, k: nat)
    requires k < |s| && !IsWhiteSpace(s[k])
    ensures |TrimEnd(s)| > k
  {
  }

  /** A literal that starts with a digit and has a character at `d` that is neither a
      digit nor a base letter is NaN. */
  lemma TrimmedTextAfterDigits(t: string, d: nat)
    requires 1 <= d < |t| && IsDigit(t[0], 10)
    requires d == 1 || IsDigit(t[1], 10)
    requires !IsDigit(t[d], 10) && RadixOfPrefix(t[d]) == 0
    ensures NumberOfTrimmed(t) == NaN
  {
    assert RadixOfPrefix(t[1]) == 0;
    assert t[0] != '-' && t[0] != '+';
    assert !IsDecimal(t);
  }

  /** Unary `+` gives NaN on decimal digits followed by text that no JavaScript number
      literal continues with. */
  lemma ToNumberOfTextAfterDigits(ds: string, rest: string)
    requires IsDecimal(ds) && |rest| > 0
    requires !IsDigit(rest[0], 10) && !IsWhiteSpace(rest[0])
    requires RadixOfPrefix(rest[0]) == 0
    ensures ToNumber(ds + rest) == NaN
  {
    TrimStartOfDigits(ds, rest);
    TrimEndPastDigits(ds, rest);
    TrimmedTextAfterDigits(TrimEnd(ds + rest), |ds|);
  }

  lemma TrimStartOfDigits(ds: string, rest: string)
    requires IsDecimal(ds)
    ensures TrimStart(ds + rest) == ds + rest
  {
    assert (ds + rest)[0] == ds[0];
  }

  /** Trimming the end of `ds + rest` keeps the digits and the first character after them. */
  lemma TrimEndPastDigits(ds: string, rest: string)
    requires IsDecimal(ds) && |rest| > 0 && !IsWhiteSpace(rest[0])
    ensures var t := TrimEnd(ds + rest);
      && |t| > |ds| && t[0] == ds[0] && t[|ds|] == rest[0] && (|ds| == 1 || t[1] == ds[1])
  {
    var s := ds + rest;
    assert s[|ds|] == rest[0];
    TrimEndKeeps(s, |ds|);
  }

  /** Decimal digits followed by text that no JavaScript number literal continues with
      (the day piece "05T00" of a timestamp, say): `parseInt` reads the digits and
      ignores the rest, while unary `+` gives NaN. */
  lemma TextAfterDigits(ds: string, rest: string)
    requires IsDecimal(ds) && |rest| > 0
    requires !IsDigit(rest[0], 10) && !IsWhiteSpace(rest[0]) && rest[0] != '.'
    requires rest[0] !in "eExXoObB"
    ensures ParseInt(ds + rest) == Int(DigitsValue(ds, 10))
    ensures ToNumber(ds + rest) == NaN
  {
    assert RadixOfPrefix(rest[0]) == 0;
    ParseIntOfDecimal(ds, rest);
    ToNumberOfTextAfterDigits(ds, rest);
  }
}
