/** String handling behind the date column: `String.prototype.split` on a
    one-character separator, and positional digit strings in bases up to 36. */
module Strings {

  /** `s.split(sep)`: the pieces between separators, always at least one. */
  function Split(s: string, sep: char): (parts: seq<string>)
    ensures |parts| >= 1
    ensures forall i :: 0 <= i < |parts| ==> sep !in parts[i]
    decreases |s|
  {
    if |s| == 0 then [""]
    else
      var rest := Split(s[1..], sep);
      if s[0] == sep then [""] + rest
      else [[s[0]] + rest[0]] + rest[1..]
  }

  /** `parts.join(sep)` for a non-empty array of pieces. */
  function Join(parts: seq<string>, sep: char): string
    requires |parts| >= 1
    decreases |parts|
  {
    if |parts| == 1 then parts[0] else parts[0] + [sep] + Join(parts[1..], sep)
  }

  /** Joining the pieces of a split gives the string back. */
  lemma {:induction false} JoinSplit(s: string, sep: char)
    ensures Join(Split(s, sep), sep) == s
    decreases |s|
  {
    if |s| > 0 {
      JoinSplit(s[1..], sep);
      var rest := Split(s[1..], sep);
      if s[0] != sep {
        if |rest| > 1 {
          assert Join(Split(s, sep), sep) == [s[0]] + rest[0] + [sep] + Join(rest[1..], sep);
          assert Join(rest, sep) == rest[0] + [sep] + Join(rest[1..], sep);
        }
      }
    }
  }

  lemma {:induction false} SplitWithout(a: string, sep: char)
    requires sep !in a
    ensures Split(a, sep) == [a]
    decreases |a|
  {
    if |a| > 0 {
      SplitWithout(a[1..], sep);
      assert [a[0]] + a[1..] == a;
    }
  }

  lemma {:induction false} SplitAfterPiece(a: string, b: string, sep: char)
    requires sep !in a
    ensures Split(a + [sep] + b, sep) == [a] + Split(b, sep)
    decreases |a|
  {
    if |a| == 0 {
      assert a + [sep] + b == [sep] + b;
      assert ([sep] + b)[1..] == b;
    } else {
      var t := a + [sep] + b;
      assert t[1..] == a[1..] + [sep] + b;
      SplitAfterPiece(a[1..], b, sep);
      assert [a[0]] + a[1..] == a;
    }
  }

  /** Splitting joined separator-free pieces gives the pieces back. */
  lemma {:induction false} SplitJoin(parts: seq<string>, sep: char)
    requires |parts| >= 1
    requires forall i :: 0 <= i < |parts| ==> sep !in parts[i]
    ensures Split(Join(parts, sep), sep) == parts
    decreases |parts|
  {
    if |parts| == 1 {
      SplitWithout(parts[0], sep);
    } else {
      SplitJoin(parts[1..], sep);
      SplitAfterPiece(parts[0], Join(parts[1..], sep), sep);
      assert [parts[0]] + parts[1..] == parts;
    }
  }

  /** The value of `c` as a digit ('0'..'9', then 'a'/'A' for 10 up to 'z'/'Z' for 35),
      or 36 when `c` is not a digit in any base. */
  function DigitValue(c: char): (d: nat)
    ensures d <= 36
  {
    if '0' <= c <= '9' then c as int - '0' as int
    else if 'a' <= c <= 'z' then c as int - 'a' as int + 10
    else if 'A' <= c <= 'Z' then c as int - 'A' as int + 10
    else 36
  }

  predicate IsDigit(c: char, radix: nat) {
    DigitValue(c) < radix
  }

  /** Every character of `s` is a digit of `radix` (an empty `s` qualifies). */
  predicate AllDigits(s: string, radix: nat) {
    forall i :: 0 <= i < |s| ==> IsDigit(s[i], radix)
  }

  /** A non-empty run of decimal digits. */
  predicate IsDecimal(s: string) {
    |s| > 0 && AllDigits(s, 10)
  }

  /** The longest prefix of `s` made of digits of `radix`. */
  function LeadingDigits(s: string, radix: nat): (ds: string)
    ensures |ds| <= |s| && ds == s[..|ds|]
    ensures AllDigits(ds, radix)
    ensures |ds| < |s| ==> !IsDigit(s[|ds|], radix)
    decreases |s|
  {
    if |s| == 0 || !IsDigit(s[0], radix) then []
    else [s[0]] + LeadingDigits(s[1..], radix)
  }

  /** The number that the digit string `ds` denotes in base `radix`. */
  function DigitsValue(ds: string, radix: nat): nat
    requires AllDigits(ds, radix)
    decreases |ds|
  {
    if |ds| == 0 then 0
    else DigitsValue(ds[..|ds| - 1], radix) * radix + DigitValue(ds[|ds| - 1])
  }

  /** Leading zeros do not change the value: "02" and "2" denote the same number. */
  lemma {:induction false} LeadingZero(ds: string, radix: nat)
    requires 1 <= radix && AllDigits(ds, radix)
    ensures AllDigits("0" + ds, radix)
    ensures DigitsValue("0" + ds, radix) == DigitsValue(ds, radix)
    decreases |ds|
  {
    var z := "0" + ds;
    if |ds| > 0 {
      var n := |ds| - 1;
      assert z[..|z| - 1] == "0" + ds[..n];
      LeadingZero(ds[..n], radix);
    } else {
      assert DigitsValue(z, radix) == DigitsValue(z[..0], radix) * radix + 0;
    }
  }

  /** The decimal digit for `d`. */
  function DecimalDigit(d: nat): (c: char)
    requires d < 10
    ensures IsDigit(c, 10) && DigitValue(c) == d
  {
    ('0' as int + d) as char
  }

  /** The canonical decimal spelling of `n`: no leading zero, "0" for zero. */
  function DecimalString(n: nat): (s: string)
    ensures IsDecimal(s)
    ensures DigitsValue(s, 10) == n
    decreases n
  {
    if n < 10 then [DecimalDigit(n)]
    else
      var s := DecimalString(n / 10) + [DecimalDigit(n % 10)];
      assert s[..|s| - 1] == DecimalString(n / 10);
      s
  }

  /** `date.split('-')` on `year-month-rest`: the year and the month come first, as
      long as neither holds a dash. */
  lemma SplitDate(year: string, month: string, rest: string)
    requires '-' !in year && '-' !in month
    ensures Split(year + "-" + month + "-" + rest, '-') == [year, month] + Split(rest, '-')
  {
    assert year + "-" + month + "-" + rest == year + ['-'] + (month + ['-'] + rest);
    SplitAfterPiece(year, month + ['-'] + rest, '-');
    SplitAfterPiece(month, rest, '-');
  }

  /** A decimal string without a superfluous leading zero. */
  predicate IsCanonicalDecimal(s: string) {
    IsDecimal(s) && (s[0] == '0' ==> |s| == 1)
  }

  lemma {:induction false} CanonicalPositive(s: string)
    requires IsCanonicalDecimal(s) && s[0] != '0'
    ensures DigitsValue(s, 10) >= 1
    decreases |s|
  {
    if |s| > 1 {
      var n := |s| - 1;
      assert s[..n][0] == s[0];
      CanonicalPositive(s[..n]);
    }
  }

  /** Reading a canonical decimal string and writing the value back gives the same string. */
  lemma {:induction false} DecimalStringOfValue(s: string)
    requires IsCanonicalDecimal(s)
    ensures DecimalString(DigitsValue(s, 10)) == s
    decreases |s|
  {
    var n := |s| - 1;
    if |s| > 1 {
      var pre := s[..n];
      assert pre[0] == s[0];
      if s[0] == '0' {
        assert false;
      }
      CanonicalPositive(pre);
      DecimalStringOfValue(pre);
      var v := DigitsValue(s, 10);
      assert v == DigitsValue(pre, 10) * 10 + DigitValue(s[n]);
      assert v / 10 == DigitsValue(pre, 10) && v % 10 == DigitValue(s[n]);
      assert DecimalDigit(v % 10) == s[n];
      assert s == pre + [s[n]];
    } else {
      assert DecimalDigit(DigitValue(s[0])) == s[0];
    }
  }
}
