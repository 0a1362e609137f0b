/**
 * The pieces of the .NET base library that the task tracker relies on:
 * 32-bit `int` arithmetic, `string.ToLower`, `StringComparison.OrdinalIgnoreCase`,
 * `int.TryParse`, `Int32.Parse` and `int.ToString`.
 * Only ASCII case mapping and the invariant-culture number format are modelled.
 */
module DotNet {
  import opened Wrappers
  import opened Sequences

  const MinInt32: int := -0x8000_0000
  const MaxInt32: int := 0x7FFF_FFFF

  /** C#'s `int`. */
  type Int32 = x: int | MinInt32 <= x <= MaxInt32

  /** The exceptions the modelled code can raise. */
  datatype Exception = FormatException | OverflowException | IndexOutOfRangeException

  /** Unchecked (the C# default) 32-bit two's-complement reduction of a mathematical integer. */
  function Wrap32(x: int): (r: Int32)
    ensures MinInt32 <= x <= MaxInt32 ==> r == x
    ensures (x - r) % 0x1_0000_0000 == 0
  {
    (x + 0x8000_0000) % 0x1_0000_0000 - 0x8000_0000
  }

  // ---------------------------------------------------------------------
  // Case mapping

  function LowerChar(c: char): (r: char)
    ensures 'A' <= c <= 'Z' ==> 'a' <= r <= 'z' && r as int - c as int == 32
    ensures !('A' <= c <= 'Z') ==> r == c
  {
    if 'A' <= c <= 'Z' then (c as int + 32) as char else c
  }

  function UpperChar(c: char): (r: char)
    ensures 'a' <= c <= 'z' ==> 'A' <= r <= 'Z' && c as int - r as int == 32
    ensures !('a' <= c <= 'z') ==> r == c
  {
    if 'a' <= c <= 'z' then (c as int - 32) as char else c
  }

  /** `string.ToLower()`: maps every upper-case letter to lower case, character by character. */
  function ToLower(s: string): (r: string)
    ensures |r| == |s|
    ensures forall i :: 0 <= i < |s| ==> r[i] == LowerChar(s[i])
  {
    seq(|s|, i requires 0 <= i < |s| => LowerChar(s[i]))
  }

  /** Lower-casing twice is lower-casing once. */
  lemma ToLowerIdempotent(s: string)
    ensures ToLower(ToLower(s)) == ToLower(s)
  {
    var once := ToLower(s);
    assert forall i :: 0 <= i < |s| ==> LowerChar(once[i]) == once[i];
  }

  /** `a.Equals(b, StringComparison.OrdinalIgnoreCase)`: equal lengths and equal upper-cased characters. */
  predicate EqualsIgnoreCase(a: string, b: string)
  {
    |a| == |b| && forall i :: 0 <= i < |a| ==> UpperChar(a[i]) == UpperChar(b[i])
  }

  /** Comparing upper-cased characters is the same as comparing the lower-cased strings. */
  lemma EqualsIgnoreCaseIffSameLower(a: string, b: string)
    ensures EqualsIgnoreCase(a, b) <==> ToLower(a) == ToLower(b)
  {
    if |a| == |b| {
      forall i | 0 <= i < |a|
        ensures UpperChar(a[i]) == UpperChar(b[i]) <==> LowerChar(a[i]) == LowerChar(b[i])
      {
      }
      if ToLower(a) == ToLower(b) {
        forall i | 0 <= i < |a| ensures LowerChar(a[i]) == LowerChar(b[i]) {
          assert ToLower(a)[i] == ToLower(b)[i];
        }
      }
    } else {
      assert |ToLower(a)| != |ToLower(b)|;
    }
  }

  // ---------------------------------------------------------------------
  // Integer parsing: NumberStyles.Integer (leading and trailing white space,
  // an optional leading sign, one or more ASCII digits).

  /** The white-space characters that number parsing skips: U+0009 to U+000D and U+0020. */
  predicate IsWhite(c: char) { c == ' ' || '\t' <= c <= '\r' }

  predicate IsDigit(c: char) { '0' <= c <= '9' }

  /** Every character is an ASCII digit; peeled from the end, as `DigitsValue` reads the digits. */
  predicate AllDigits(s: string)
  {
    s == [] || (IsDigit(s[|s| - 1]) && AllDigits(s[..|s| - 1]))
  }

  lemma {:induction false} AllDigitsAt(s: string, i: nat)
    requires AllDigits(s) && i < |s|
    ensures IsDigit(s[i])
  {
    if i < |s| - 1 {
      AllDigitsAt(s[..|s| - 1], i);
    }
  }

  function TrimLeadingWhite(s: string): (r: string)
    ensures |r| <= |s|
  {
    if |s| > 0 && IsWhite(s[0]) then TrimLeadingWhite(s[1..]) else s
  }

  function TrimTrailingWhite(s: string): (r: string)
    ensures |r| <= |s|
  {
    if |s| > 0 && IsWhite(s[|s| - 1]) then TrimTrailingWhite(s[..|s| - 1]) else s
  }

  /** Leading trimming drops a run of white space from the front, and only that: what is left starts with something else. */
  lemma {:induction false} TrimLeadingWhiteDropsWhitePrefix(s: string)
    ensures var r := TrimLeadingWhite(s);
            && r == s[|s| - |r|..]
            && (r == [] || !IsWhite(r[0]))
            && forall i :: 0 <= i < |s| - |r| ==> IsWhite(s[i])
  {
    if |s| > 0 && IsWhite(s[0]) {
      TrimLeadingWhiteDropsWhitePrefix(s[1..]);
    }
  }

  /** Trailing trimming drops a run of white space from the end, and only that: what is left ends with something else. */
  lemma {:induction false} TrimTrailingWhiteDropsWhiteSuffix(s: string)
    ensures var r := TrimTrailingWhite(s);
            && r == s[..|r|]
            && (r == [] || !IsWhite(r[|r| - 1]))
            && forall i :: |r| <= i < |s| ==> IsWhite(s[i])
  {
    if |s| > 0 && IsWhite(s[|s| - 1]) {
      TrimTrailingWhiteDropsWhiteSuffix(s[..|s| - 1]);
    }
  }

  /** The value of a string of decimal digits, most significant first. */
  function DigitsValue(ds: string): nat
    requires AllDigits(ds)
  {
    if ds == [] then 0 else DigitsValue(ds[..|ds| - 1]) * 10 + (ds[|ds| - 1] as int - '0' as int)
  }

  datatype ParseResult = Parsed(value: Int32) | BadFormat | TooLarge

  /**
   * The common core of `int.TryParse` and `Int32.Parse`: a malformed string is a format
   * failure even when its digits would also overflow; a well-formed numeral whose value
   * lies outside the `int` range is an overflow.
   */
  function Parse(s: string): ParseResult
  {
    var t := TrimTrailingWhite(TrimLeadingWhite(s));
    var negative := |t| > 0 && t[0] == '-';
    var digits := if |t| > 0 && (t[0] == '-' || t[0] == '+') then t[1..] else t;
    if digits == [] || !AllDigits(digits) then BadFormat
    else
      var v: int := if negative then -(DigitsValue(digits) as int) else DigitsValue(digits);
      if MinInt32 <= v <= MaxInt32 then Parsed(v) else TooLarge
  }

  /** `int.TryParse(s, out n)`: `Some(n)` when it returns true. */
  function TryParse(s: string): (r: Option<Int32>)
    ensures r.Some? <==> Parse(s).Parsed?
    ensures r.Some? ==> r.value == Parse(s).value
  {
    if Parse(s).Parsed? then Some(Parse(s).value) else None
  }

  datatype Throwing<T> = Value(value: T) | Threw(exception: Exception)

  /** `Int32.Parse(s)`: a value, or the exception it throws. */
  function ParseOrThrow(s: string): (r: Throwing<Int32>)
    ensures r.Value? <==> TryParse(s).Some?
    ensures r.Value? ==> r.value == TryParse(s).value
    ensures Parse(s) == BadFormat ==> r == Threw(FormatException)
    ensures Parse(s) == TooLarge ==> r == Threw(OverflowException)
  {
    match Parse(s)
    case Parsed(n) => Value(n)
    case BadFormat => Threw(FormatException)
    case TooLarge => Threw(OverflowException)
  }

  // ---------------------------------------------------------------------
  // What the parser accepts, stated without reference to how it scans

  predicate AllWhite(w: string) { forall i :: 0 <= i < |w| ==> IsWhite(w[i]) }

  /** `s` is white space `w1`, an optional sign, the digits `ds` and white space `w2`, in that order. */
  predicate SplitsAsNumeral(s: string, w1: string, sign: string, ds: string, w2: string)
  {
    && s == w1 + sign + ds + w2
    && AllWhite(w1) && AllWhite(w2)
    && (sign == "" || sign == "+" || sign == "-")
    && ds != [] && AllDigits(ds)
  }

  /** The value a sign and a run of digits denote. */
  function SignedValue(sign: string, ds: string): int
    requires AllDigits(ds)
  {
    if sign == "-" then -(DigitsValue(ds) as int) else DigitsValue(ds)
  }

  /**
   * `int.TryParse` and `Int32.Parse` accept exactly the strings made of leading white space,
   * an optional `+` or `-`, one or more ASCII digits and trailing white space. Such a string
   * parses to its signed value when that is an `int` and overflows otherwise; every other
   * string is a format error.
   */
  lemma ParseCharacterised(s: string)
    ensures Parse(s) != BadFormat <==> exists w1, sign, ds, w2 :: SplitsAsNumeral(s, w1, sign, ds, w2)
    ensures forall w1, sign, ds, w2 :: SplitsAsNumeral(s, w1, sign, ds, w2) ==>
              Parse(s) == if MinInt32 <= SignedValue(sign, ds) <= MaxInt32
                          then Parsed(SignedValue(sign, ds)) else TooLarge
  {
    forall w1, sign, ds, w2 | SplitsAsNumeral(s, w1, sign, ds, w2)
      ensures Parse(s) == if MinInt32 <= SignedValue(sign, ds) <= MaxInt32
                          then Parsed(SignedValue(sign, ds)) else TooLarge
    {
      ParseOfSplit(w1, sign, ds, w2);
    }
    if Parse(s) != BadFormat {
      var w1, sign, ds, w2 := SplitOfParse(s);
    }
  }

  /** `int.TryParse(s, out n)` returns true exactly for a numeral whose value is an `int`, and sets `n` to that value. */
  lemma TryParseCharacterised(s: string)
    ensures TryParse(s).Some? <==> exists w1, sign, ds, w2 ::
              SplitsAsNumeral(s, w1, sign, ds, w2) && MinInt32 <= SignedValue(sign, ds) <= MaxInt32
    ensures forall w1, sign, ds, w2 :: SplitsAsNumeral(s, w1, sign, ds, w2) ==>
              TryParse(s) == if MinInt32 <= SignedValue(sign, ds) <= MaxInt32 then Some(SignedValue(sign, ds)) else None
  {
    ParseCharacterised(s);
  }

  /**
   * `Int32.Parse(s)` returns the value of a numeral that fits in an `int`, throws
   * `OverflowException` for a numeral that does not, and `FormatException` for anything else.
   */
  lemma ParseOrThrowCharacterised(s: string)
    ensures ParseOrThrow(s) == Threw(FormatException) <==> !exists w1, sign, ds, w2 :: SplitsAsNumeral(s, w1, sign, ds, w2)
    ensures forall w1, sign, ds, w2 :: SplitsAsNumeral(s, w1, sign, ds, w2) ==>
              ParseOrThrow(s) == if MinInt32 <= SignedValue(sign, ds) <= MaxInt32
                                 then Value(SignedValue(sign, ds)) else Threw(OverflowException)
  {
    ParseCharacterised(s);
  }

  /** Leading white space in front of a string that starts with something else is skipped. */
  lemma {:induction false} TrimLeadingWhiteSkips(w: string, r: string)
    requires AllWhite(w) && r != [] && !IsWhite(r[0])
    ensures TrimLeadingWhite(w + r) == r
  {
    if w == [] {
      assert w + r == r;
    } else {
      assert (w + r)[0] == w[0] && (w + r)[1..] == w[1..] + r;
      TrimLeadingWhiteSkips(w[1..], r);
    }
  }

  /** Trailing white space after a string that ends with something else is skipped. */
  lemma {:induction false} TrimTrailingWhiteSkips(x: string, w: string)
    requires AllWhite(w) && x != [] && !IsWhite(x[|x| - 1])
    ensures TrimTrailingWhite(x + w) == x
  {
    if w == [] {
      assert x + w == x;
    } else {
      var n := |x + w|;
      assert (x + w)[n - 1] == w[|w| - 1];
      assert (x + w)[..n - 1] == x + w[..|w| - 1];
      TrimTrailingWhiteSkips(x, w[..|w| - 1]);
    }
  }

  /** A numeral parses to its signed value, or overflows. */
  lemma ParseOfSplit(w1: string, sign: string, ds: string, w2: string)
    requires SplitsAsNumeral(w1 + sign + ds + w2, w1, sign, ds, w2)
    ensures Parse(w1 + sign + ds + w2) == if MinInt32 <= SignedValue(sign, ds) <= MaxInt32
                                         then Parsed(SignedValue(sign, ds)) else TooLarge
  {
    var x := sign + ds;
    var r := x + w2;
    assert w1 + sign + ds + w2 == w1 + r;
    AllDigitsAt(ds, 0);
    AllDigitsAt(ds, |ds| - 1);
    assert r[0] == x[0] && x[0] == (if sign == "" then ds[0] else sign[0]);
    TrimLeadingWhiteSkips(w1, r);
    assert x[|x| - 1] == ds[|ds| - 1];
    TrimTrailingWhiteSkips(x, w2);
    assert sign == "" ==> x == ds;
    assert sign != "" ==> x[0] == sign[0] && x[1..] == ds;
  }

  /** Trimming splits a string into leading white space, what is kept and trailing white space. */
  lemma TrimSplits(s: string) returns (w1: string, w2: string)
    ensures s == w1 + TrimTrailingWhite(TrimLeadingWhite(s)) + w2
    ensures AllWhite(w1) && AllWhite(w2)
  {
    var l := TrimLeadingWhite(s);
    var t := TrimTrailingWhite(l);
    TrimLeadingWhiteDropsWhitePrefix(s);
    TrimTrailingWhiteDropsWhiteSuffix(l);
    w1, w2 := s[..|s| - |l|], l[|t|..];
    assert forall i :: 0 <= i < |w1| ==> w1[i] == s[i];
    assert forall i :: 0 <= i < |w2| ==> w2[i] == l[|t| + i];
    SplitAt(s, |s| - |l|);
    SplitAt(l, |t|);
    ConcatAssociative(w1, t, w2);
  }

  /** A non-empty string is an optional leading `+` or `-` followed by the rest. */
  lemma SignSplits(t: string) returns (sign: string, ds: string)
    requires t != []
    ensures t == sign + ds
    ensures sign == "" || sign == "+" || sign == "-"
    ensures ds == if t[0] == '-' || t[0] == '+' then t[1..] else t
  {
    sign := if t[0] == '-' || t[0] == '+' then [t[0]] else [];
    ds := t[|sign|..];
    SplitAt(t, |sign|);
    assert t[..|sign|] == sign;
  }

  /** A string that is not a format error splits as a numeral. */
  lemma SplitOfParse(s: string) returns (w1: string, sign: string, ds: string, w2: string)
    requires Parse(s) != BadFormat
    ensures SplitsAsNumeral(s, w1, sign, ds, w2)
  {
    var t := TrimTrailingWhite(TrimLeadingWhite(s));
    w1, w2 := TrimSplits(s);
    sign, ds := SignSplits(t);
    ConcatAssociative(w1, sign, ds);
  }

  // ---------------------------------------------------------------------
  // Integer formatting: `int.ToString()`

  function DigitChar(d: nat): (c: char)
    requires d < 10
    ensures IsDigit(c) && c as int - '0' as int == d
  {
    ('0' as int + d) as char
  }

  function FormatNat(n: nat): (r: string)
    ensures |r| > 0 && AllDigits(r)
  {
    if n < 10 then [DigitChar(n)] else FormatNat(n / 10) + [DigitChar(n % 10)]
  }

  function FormatInt(n: int): (r: string)
  {
    if n < 0 then "-" + FormatNat(-n) else FormatNat(n)
  }

  lemma {:induction false} DigitsValueOfFormatNat(n: nat)
    ensures DigitsValue(FormatNat(n)) == n
  {
    if n >= 10 {
      var ds := FormatNat(n);
      assert ds[..|ds| - 1] == FormatNat(n / 10);
      DigitsValueOfFormatNat(n / 10);
    }
  }

  /** Every character `int.ToString()` produces is a digit or the minus sign. */
  lemma FormatIntChars(n: int)
    ensures |FormatInt(n)| > 0
    ensures forall i :: 0 <= i < |FormatInt(n)| ==> IsDigit(FormatInt(n)[i]) || FormatInt(n)[i] == '-'
  {
    var ds := FormatNat(if n < 0 then -n else n);
    forall i | 0 <= i < |ds| ensures IsDigit(ds[i]) {
      AllDigitsAt(ds, i);
    }
  }

  /** A string with no white space at either end is left alone by the trimming. */
  lemma TrimNothing(s: string)
    requires |s| > 0 && !IsWhite(s[0]) && !IsWhite(s[|s| - 1])
    ensures TrimTrailingWhite(TrimLeadingWhite(s)) == s
  {
  }

  /** An optionally signed run of digits parses to its value, when that value is an `int`. */
  lemma ParseNumeral(negative: bool, ds: string)
    requires ds != [] && AllDigits(ds)
    requires MinInt32 <= (if negative then -(DigitsValue(ds) as int) else DigitsValue(ds)) <= MaxInt32
    ensures Parse(if negative then "-" + ds else ds)
         == Parsed(if negative then -(DigitsValue(ds) as int) else DigitsValue(ds))
  {
    var s := if negative then "-" + ds else ds;
    AllDigitsAt(ds, 0);
    AllDigitsAt(ds, |ds| - 1);
    assert s[|s| - 1] == ds[|ds| - 1];
    assert negative ==> s[0] == '-' && s[1..] == ds;
    assert !negative ==> s[0] == ds[0];
    TrimNothing(s);
  }

  /** Parsing what `int.ToString()` printed gives the number back. */
  lemma ParseFormatInt(n: Int32)
    ensures Parse(FormatInt(n)) == Parsed(n)
    ensures TryParse(FormatInt(n)) == Some(n)
  {
    var m: nat := if n < 0 then -(n as int) else n;
    DigitsValueOfFormatNat(m);
    ParseNumeral(n < 0, FormatNat(m));
  }

  /** `int.ToString()` is one-to-one. */
  lemma FormatIntInjective(a: Int32, b: Int32)
    requires FormatInt(a) == FormatInt(b)
    ensures a == b
  {
    ParseFormatInt(a);
    ParseFormatInt(b);
  }
}
