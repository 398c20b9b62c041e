/** The handful of JavaScript string operations the e-paper front-end relies on,
    written out over `seq<char>`: decimal `toString`, `padStart`, `slice(-n)`,
    `split`, `includes`, ASCII `toLowerCase`, `replace` of a first occurrence
    and `parseInt` of a leading run of digits. */
module Strings {

  import opened Wrappers

  predicate IsDigit(c: char) {
    '0' <= c <= '9'
  }

  predicate AllDigits(s: string) {
    forall i :: 0 <= i < |s| ==> IsDigit(s[i])
  }

  /** The character of a decimal digit. */
  function DigitChar(k: int): (c: char)
    requires 0 <= k < 10
    ensures IsDigit(c)
  {
    ('0' as int + k) as char
  }

  /** The numeric value of a decimal digit character. */
  function DigitValue(c: char): (k: int)
    requires IsDigit(c)
    ensures 0 <= k < 10
    ensures DigitChar(k) == c
  {
    c as int - '0' as int
  }

  lemma DigitRoundTrip(k: int)
    requires 0 <= k < 10
    ensures DigitValue(DigitChar(k)) == k
  {
  }

  /** `n.toString()` for a non-negative integer. */
  function NatToString(n: nat): (s: string)
    ensures |s| >= 1
    ensures AllDigits(s)
  {
    if n < 10 then [DigitChar(n)] else NatToString(n / 10) + [DigitChar(n % 10)]
  }

  /** Text made of decimal digits and minus signs only. */
  predicate NumericText(s: string) {
    forall i :: 0 <= i < |s| ==> IsDigit(s[i]) || s[i] == '-'
  }

  /** `padStart` with zeros keeps text numeric. */
  lemma PadStart2Numeric(s: string)
    requires NumericText(s)
    ensures NumericText(PadStart2(s))
  {
  }

  /** A suffix of numeric text is numeric. */
  lemma SliceLast2Numeric(s: string)
    requires NumericText(s)
    ensures NumericText(SliceLast2(s))
  {
    if |s| >= 2 {
      assert forall i :: 0 <= i < 2 ==> SliceLast2(s)[i] == s[|s| - 2 + i];
    }
  }

  /** Numeric texts joined by a hyphen are numeric. */
  lemma HyphenJoinNumeric(a: string, b: string)
    requires NumericText(a) && NumericText(b)
    ensures NumericText(a + "-" + b)
  {
    var r := a + "-" + b;
    assert forall i :: 0 <= i < |a| ==> r[i] == a[i];
    assert forall i :: |a| + 1 <= i < |r| ==> r[i] == b[i - |a| - 1];
  }

  /** Numeric text contains no dot. */
  lemma NumericHasNoDot(s: string)
    requires NumericText(s)
    ensures '.' !in s
  {
  }

  /** `n.toString()` for any integer: a minus sign before the digits of |n|. */
  function IntToString(n: int): (s: string)
    ensures NumericText(s)
  {
    if n < 0 then "-" + NatToString(-n) else NatToString(n)
  }

  /** `s.padStart(2, '0')`. */
  function PadStart2(s: string): (r: string)
    ensures |s| >= 2 ==> r == s
    ensures |s| < 2 ==> |r| == 2 && r[2 - |s|..] == s
    ensures forall i :: 0 <= i < 2 - |s| ==> r[i] == '0'
  {
    if |s| >= 2 then s else if |s| == 1 then "0" + s else "00"
  }

  /** `s.slice(-2)`: the last two characters, or all of `s` when it is shorter. */
  function SliceLast2(s: string): (r: string)
    ensures |s| >= 2 ==> |r| == 2 && s == s[..|s| - 2] + r
    ensures |s| < 2 ==> r == s
  {
    if |s| >= 2 then s[|s| - 2..] else s
  }

  /** The two-character decimal rendering of a number below 100, leading zero kept. */
  function TwoDigits(k: int): (s: string)
    requires 0 <= k < 100
    ensures |s| == 2 && AllDigits(s)
  {
    [DigitChar(k / 10), DigitChar(k % 10)]
  }

  /** `n.toString().padStart(2, '0')` is the two-digit rendering of any number from 0 to 99. */
  lemma PaddedWhenSmall(n: int)
    ensures 0 <= n < 100 ==> PadStart2(IntToString(n)) == TwoDigits(n)
  {
    if 0 <= n < 100 {
      PaddedTwoDigits(n);
    }
  }

  /** `n.toString().slice(-2)` is the two-digit rendering of `n % 100` for any number from 10 on. */
  lemma SlicedWhenLong(n: int)
    ensures n >= 10 ==> SliceLast2(IntToString(n)) == TwoDigits(n % 100)
  {
    if n >= 10 {
      LastTwoDigits(n);
    }
  }

  /** The value of a string of decimal digits, most significant first. */
  function DigitsValue(s: string): (v: nat)
    requires AllDigits(s)
  {
    if |s| == 0 then 0 else DigitsValue(s[..|s| - 1]) * 10 + DigitValue(s[|s| - 1])
  }

  /** The longest prefix of `s` made of decimal digits. */
  function LeadingDigits(s: string): (r: string)
    ensures AllDigits(r)
    ensures |r| <= |s| && r == s[..|r|]
    ensures |r| < |s| ==> !IsDigit(s[|r|])
  {
    if |s| == 0 || !IsDigit(s[0]) then "" else [s[0]] + LeadingDigits(s[1..])
  }

  /** `parseInt(s)` restricted to unsigned input without leading blanks: the
      value of the leading digits, or None (JavaScript's NaN) when there are none. */
  function ParseInt(s: string): (r: Option<nat>)
    ensures r.None? <==> (|s| == 0 || !IsDigit(s[0]))
  {
    var digits := LeadingDigits(s);
    if |digits| == 0 then None else Some(DigitsValue(digits))
  }

  lemma {:induction false} NatToStringLastDigit(n: nat)
    ensures NatToString(n)[|NatToString(n)| - 1] == DigitChar(n % 10)
    ensures n >= 10 ==> |NatToString(n)| >= 2
  {
  }

  /** For a number of at least two digits, `toString().slice(-2)` is the
      two-digit rendering of the number modulo 100. */
  lemma LastTwoDigits(n: nat)
    requires n >= 10
    ensures SliceLast2(NatToString(n)) == TwoDigits(n % 100)
  {
    var hi := NatToString(n / 10);
    NatToStringLastDigit(n / 10);
    SliceLast2Snoc(hi, DigitChar(n % 10));
    ModHundred(n);
  }

  lemma SliceLast2Snoc(hi: string, lo: char)
    requires |hi| >= 1
    ensures SliceLast2(hi + [lo]) == [hi[|hi| - 1], lo]
  {
  }

  lemma ModHundred(n: nat)
    ensures (n % 100) / 10 == (n / 10) % 10
    ensures (n % 100) % 10 == n % 10
  {
    var q, r := n / 10, n % 10;
    var b, c := q % 10, q / 10;
    assert n == 100 * c + (10 * b + r);
    DivModUnique(n, 100, c, 10 * b + r);
    DivModUnique(10 * b + r, 10, b, r);
  }

  /** Division with remainder is unique. */
  lemma DivModUnique(n: int, d: int, q: int, r: int)
    requires 0 < d && 0 <= r < d && n == d * q + r
    ensures n / d == q && n % d == r
  {
    var k := q - n / d;
    assert d * k == d * q - d * (n / d);
    assert d * k == n % d - r;
    MulSign(d, k);
  }

  /** A nonzero multiple of a positive number is at least that number away from zero. */
  lemma MulSign(d: int, k: int)
    requires d > 0
    ensures k >= 1 ==> d * k >= d
    ensures k <= -1 ==> d * k <= -d
  {
    if k >= 1 {
      assert d * k == d * (k - 1) + d;
    } else if k <= -1 {
      assert d * k == d * (k + 1) - d;
    }
  }

  /** For a number from 0 to 99, `toString().padStart(2, '0')` is its two-digit rendering. */
  lemma PaddedTwoDigits(n: nat)
    requires n < 100
    ensures PadStart2(NatToString(n)) == TwoDigits(n)
  {
    if n >= 10 {
      assert NatToString(n) == NatToString(n / 10) + [DigitChar(n % 10)];
    }
  }

  /** A string made only of digits is its own leading-digit run. */
  lemma {:induction false} LeadingDigitsOfDigits(s: string)
    requires AllDigits(s)
    ensures LeadingDigits(s) == s
  {
    if |s| > 0 {
      LeadingDigitsOfDigits(s[1..]);
    }
  }

  /** The value of a two-digit rendering is the number rendered. */
  lemma TwoDigitsValue(k: int)
    requires 0 <= k < 100
    ensures DigitsValue(TwoDigits(k)) == k
  {
    var t := TwoDigits(k);
    DigitRoundTrip(k / 10);
    DigitRoundTrip(k % 10);
    DigitsValueSnoc([], t[0]);
    assert [] + [t[0]] == t[..1];
    DigitsValueSnoc(t[..1], t[1]);
    assert t[..1] + [t[1]] == t;
  }

  /** The value of "20" followed by a two-digit rendering is 2000 plus the number. */
  lemma PrefixedTwoDigitsValue(k: int)
    requires 0 <= k < 100
    ensures DigitsValue("20" + TwoDigits(k)) == 2000 + k
  {
    var t := TwoDigits(k);
    TwoDigitsValue(k);
    DigitRoundTrip(2);
    DigitRoundTrip(0);
    DigitsValueSnoc([], '2');
    assert [] + ['2'] == "2";
    DigitsValueSnoc("2", '0');
    assert "2" + ['0'] == "20";
    DigitsValueSnoc("20", t[0]);
    DigitsValueSnoc("20" + [t[0]], t[1]);
    assert "20" + [t[0]] + [t[1]] == "20" + t;
    assert t == [t[0]] + [t[1]];
    assert DigitsValue([t[0], t[1]]) == k;
  }

  /** `parseInt` reads back a two-digit rendering, also behind a "20" prefix. */
  lemma ParseTwoDigits(k: int)
    requires 0 <= k < 100
    ensures ParseInt(TwoDigits(k)) == Some(k)
    ensures ParseInt("20" + TwoDigits(k)) == Some(2000 + k)
  {
    var t := TwoDigits(k);
    LeadingDigitsOfDigits(t);
    TwoDigitsValue(k);
    var u := "20" + t;
    assert AllDigits(u);
    LeadingDigitsOfDigits(u);
    PrefixedTwoDigitsValue(k);
  }

  lemma DigitsValueSnoc(s: string, c: char)
    requires AllDigits(s) && IsDigit(c)
    ensures DigitsValue(s + [c]) == DigitsValue(s) * 10 + DigitValue(c)
  {
    assert (s + [c])[..|s|] == s;
  }

  /** `s.split(sep)`: the maximal separator-free pieces, in order. */
  function Split(s: string, sep: char): (parts: seq<string>)
    ensures |parts| >= 1
  {
    if |s| == 0 then [""]
    else
      var rest := Split(s[1..], sep);
      if s[0] == sep then [""] + rest else [[s[0]] + rest[0]] + rest[1..]
  }

  /** A separator-free string splits into itself. */
  lemma {:induction false} SplitNoSeparator(s: string, sep: char)
    requires sep !in s
    ensures Split(s, sep) == [s]
  {
    if |s| > 0 {
      SplitNoSeparator(s[1..], sep);
      assert [s[0]] + s[1..] == s;
    }
  }

  /** Splitting peels a separator-free head off before the first separator. */
  lemma {:induction false} SplitPrefix(a: string, sep: char, t: string)
    requires sep !in a
    ensures Split(a + [sep] + t, sep) == [a] + Split(t, sep)
  {
    if |a| == 0 {
      assert a + [sep] + t == [sep] + t;
      assert ([sep] + t)[1..] == t;
    } else {
      assert (a + [sep] + t)[1..] == a[1..] + [sep] + t;
      SplitPrefix(a[1..], sep, t);
      assert [a[0]] + a[1..] == a;
    }
  }

  /** Three separator-free fields joined by the separator split back into those fields. */
  lemma SplitThree(a: string, b: string, c: string, sep: char)
    requires sep !in a && sep !in b && sep !in c
    ensures Split(a + [sep] + b + [sep] + c, sep) == [a, b, c]
  {
    assert a + [sep] + b + [sep] + c == a + [sep] + (b + [sep] + c);
    SplitPrefix(a, sep, b + [sep] + c);
    SplitPrefix(b, sep, c);
    SplitNoSeparator(c, sep);
  }

  predicate IsPrefix(t: string, s: string) {
    |t| <= |s| && s[..|t|] == t
  }

  /** `s.includes(t)`: `t` occurs in `s` at some position. */
  predicate Contains(s: string, t: string)
    decreases |s|
  {
    IsPrefix(t, s) || (|s| > 0 && Contains(s[1..], t))
  }

  /** Whatever is written between a prefix and a suffix occurs in the whole. */
  lemma {:induction false} ContainsMiddle(a: string, t: string, b: string)
    ensures Contains(a + t + b, t)
  {
    if |a| == 0 {
      assert a + t + b == t + b;
      assert (t + b)[..|t|] == t;
    } else {
      assert (a + t + b)[1..] == a[1..] + t + b;
      ContainsMiddle(a[1..], t, b);
    }
  }

  /** Every string contains the empty string, as `includes('')` is always true. */
  lemma ContainsEmpty(s: string)
    ensures Contains(s, "")
  {
    assert IsPrefix("", s);
  }

  /** A string that contains `t` contains every character of `t`. */
  lemma {:induction false} ContainsChars(s: string, t: string, c: char)
    requires Contains(s, t) && c in t
    ensures c in s
    decreases |s|
  {
    if IsPrefix(t, s) {
      var i :| 0 <= i < |t| && t[i] == c;
      assert s[i] == c;
    } else {
      ContainsChars(s[1..], t, c);
      assert s == [s[0]] + s[1..];
    }
  }

  /** ASCII `toLowerCase` of one character. */
  function LowerChar(c: char): char {
    if 'A' <= c <= 'Z' then (c as int + 32) as char else c
  }

  /** `s.toLowerCase()` restricted to ASCII letters. */
  function Lower(s: string): (r: string)
    ensures |r| == |s|
    ensures forall i :: 0 <= i < |s| ==> r[i] == LowerChar(s[i])
  {
    seq(|s|, i requires 0 <= i < |s| => LowerChar(s[i]))
  }

  /** `s.replace(pat, rep)` with a string pattern: only the first occurrence is replaced. */
  function ReplaceFirst(s: string, pat: string, rep: string): string
    requires |pat| > 0
    decreases |s|
  {
    if |s| < |pat| then s
    else if s[..|pat|] == pat then rep + s[|pat|..]
    else [s[0]] + ReplaceFirst(s[1..], pat, rep)
  }

  /** A pattern that does not occur leaves the string untouched. */
  lemma {:induction false} ReplaceAbsent(s: string, pat: string, rep: string)
    requires |pat| > 0 && !Contains(s, pat)
    ensures ReplaceFirst(s, pat, rep) == s
    decreases |s|
  {
    if |s| >= |pat| {
      assert !IsPrefix(pat, s);
      ReplaceAbsent(s[1..], pat, rep);
      assert [s[0]] + s[1..] == s;
    }
  }

  /** A pattern whose first character is missing from a string does not occur in it. */
  lemma AbsentCharNotContained(s: string, t: string)
    requires |t| > 0 && t[0] !in s
    ensures !Contains(s, t)
  {
    if Contains(s, t) {
      ContainsChars(s, t, t[0]);
    }
  }

  /** Replacing a suffix pattern by nothing strips it. */
  lemma {:induction false} ReplaceSuffix(s: string, pat: string)
    requires |pat| > 0 && pat[0] !in s
    ensures ReplaceFirst(s + pat, pat, "") == s
    decreases |s|
  {
    if |s| == 0 {
      assert s + pat == pat;
      assert pat[..|pat|] == pat;
    } else {
      assert (s + pat)[..|pat|][0] == s[0];
      assert (s + pat)[1..] == s[1..] + pat;
      ReplaceSuffix(s[1..], pat);
      assert [s[0]] + s[1..] == s;
    }
  }

  predicate EndsWith(s: string, suffix: string) {
    |suffix| <= |s| && s[|s| - |suffix|..] == suffix
  }

  /** Whatever is written before a suffix, the whole ends with it. */
  lemma EndsWithAppended(s: string, suffix: string)
    ensures EndsWith(s + suffix, suffix)
  {
    assert (s + suffix)[|s|..] == suffix;
  }
}
