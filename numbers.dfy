/** Account numbers: the next value after the largest existing account id
    (`Max() + 1` on `long`, falling back to 1 for an empty table), its decimal
    rendering (`long.ToString()`) and its left padding with '0' to sixteen
    characters (`string.PadLeft`). The inverse direction (strip the leading
    zeros, read the digits) is defined here as the reference the rendering is
    proved against. */
module AccountNumbers {

  const LONG_MIN: int := -0x8000_0000_0000_0000
  const LONG_MAX: int := 0x7FFF_FFFF_FFFF_FFFF

  /** The values of a C# `long`. */
  type Int64 = x: int | LONG_MIN <= x <= LONG_MAX

  /** Total width an account number is padded to. */
  const NUMBER_WIDTH: nat := 16

  /** Unchecked `long` arithmetic: the result is taken modulo 2^64 into the
      signed range. */
  function Wrap64(x: int): (r: Int64)
    ensures LONG_MIN <= x <= LONG_MAX ==> r == x
    ensures x == LONG_MAX + 1 ==> r == LONG_MIN
  {
    (x - LONG_MIN) % 0x1_0000_0000_0000_0000 + LONG_MIN
  }

  /** `m` is the largest of `ids`. */
  ghost predicate IsMaxOf(m: Int64, ids: set<Int64>)
  {
    m in ids && forall id | id in ids :: id <= m
  }

  lemma {:induction false} MaxExists(ids: set<Int64>)
    requires ids != {}
    ensures exists m :: IsMaxOf(m, ids)
    decreases |ids|
  {
    var x :| x in ids;
    if ids == {x} {
      assert IsMaxOf(x, ids);
    } else {
      var rest := ids - {x};
      MaxExists(rest);
      var m :| IsMaxOf(m, rest);
      assert ids == rest + {x};
      if x <= m {
        assert IsMaxOf(m, ids);
      } else {
        assert IsMaxOf(x, ids);
      }
    }
  }

  /** `Accounts.Select(acc => acc.Id).Max()` on a non-empty table. */
  function MaxId(ids: set<Int64>): (m: Int64)
    requires ids != {}
    ensures m in ids
    ensures forall id | id in ids :: id <= m
  {
    MaxExists(ids);
    var m :| m in ids && forall id | id in ids :: id <= m; m
  }

  /** The value the next account number is rendered from: one more than the
      largest id (in unchecked `long` arithmetic), or 1 when `Max()` finds no
      rows and throws. */
  function NextAccountNumber(ids: set<Int64>): (r: Int64)
    ensures ids == {} ==> r == 1
    ensures LONG_MAX !in ids ==> forall id | id in ids :: id < r
    ensures LONG_MAX !in ids && ids != {} ==> r - 1 in ids
    ensures LONG_MAX in ids ==> r == LONG_MIN
  {
    if ids == {} then 1 else Wrap64(MaxId(ids) + 1)
  }

  predicate IsDigit(c: char) { '0' <= c <= '9' }

  predicate AllDigits(s: string) { forall i | 0 <= i < |s| :: IsDigit(s[i]) }

  function DigitChar(d: int): (c: char)
    requires 0 <= d <= 9
    ensures IsDigit(c) && c as int - '0' as int == d
  {
    ('0' as int + d) as char
  }

  function DigitValue(c: char): int { c as int - '0' as int }

  /** The decimal digits of `n`, most significant first, with no leading
      zero except for the single digit of 0. */
  function Digits(n: nat): (s: string)
    ensures |s| >= 1 && AllDigits(s)
    ensures s[0] == '0' <==> n == 0
    decreases n
  {
    if n < 10 then [DigitChar(n)] else Digits(n / 10) + [DigitChar(n % 10)]
  }

  /** `long.ToString()`: a minus sign for negative values, then the digits of
      the magnitude. */
  function LongToString(n: Int64): (s: string)
    ensures n >= 0 ==> AllDigits(s) && ParseDigits(s) == n
    ensures n >= 0 ==> |s| >= 1 && (s[0] == '0' ==> |s| == 1)
    ensures n < 0 ==> |s| >= 2 && s[0] == '-' && AllDigits(s[1..]) && ParseDigits(s[1..]) == -(n as int)
    ensures n < 0 ==> s[1] != '0'
  {
    if n < 0 then
      ParseDigitsOfDigits(-(n as int));
      var d := Digits(-(n as int));
      assert ("-" + d)[1..] == d;
      "-" + d
    else
      ParseDigitsOfDigits(n);
      Digits(n)
  }

  /** `string.PadLeft(totalWidth, c)`: right-aligns `s` in a field of
      `totalWidth` characters by prefixing copies of `c`; a string that is
      already at least that long comes back unchanged, never truncated. */
  function PadLeft(s: string, totalWidth: nat, c: char): (r: string)
    ensures |r| == if |s| >= totalWidth then |s| else totalWidth
    ensures r[|r| - |s|..] == s
    ensures forall i | 0 <= i < |r| - |s| :: r[i] == c
  {
    if |s| >= totalWidth then s else Repeat(c, totalWidth - |s|) + s
  }

  /** The account number stored for the value `n` (lines 79-80). */
  function FormatAccountNumber(n: Int64): (r: string)
    ensures |r| >= NUMBER_WIDTH
    ensures n >= 0 ==> AllDigits(r)
  {
    var s := LongToString(n);
    var r := PadLeft(s, NUMBER_WIDTH, '0');
    assert n >= 0 ==> AllDigits(r) by {
      if n >= 0 {
        forall i | 0 <= i < |r|
          ensures IsDigit(r[i])
        {
          if i >= |r| - |s| {
            assert r[i] == r[|r| - |s|..][i - (|r| - |s|)];
          }
        }
      }
    }
    r
  }

  /** Reads a string of decimal digits as a number (the empty string reads as 0). */
  function ParseDigits(s: string): int
  {
    if s == [] then 0 else ParseDigits(s[..|s| - 1]) * 10 + DigitValue(s[|s| - 1])
  }

  function StripLeadingZeros(s: string): (r: string)
    ensures |r| <= |s| && r == s[|s| - |r|..]
    ensures r == [] || r[0] != '0'
    ensures forall i | 0 <= i < |s| - |r| :: s[i] == '0'
  {
    if s != [] && s[0] == '0' then StripLeadingZeros(s[1..]) else s
  }

  /** The value an account number stands for: its digits after the leading zeros. */
  function AccountNumberValue(number: string): int
  {
    ParseDigits(StripLeadingZeros(number))
  }

  /** `k` copies of `c`. */
  function Repeat(c: char, k: nat): (r: string)
    ensures |r| == k && forall i | 0 <= i < k :: r[i] == c
  {
    if k == 0 then [] else [c] + Repeat(c, k - 1)
  }

  function Pow10(k: nat): (p: nat)
    ensures p >= 1
  {
    if k == 0 then 1 else 10 * Pow10(k - 1)
  }

  // ---------------------------------------------------------------------
  // Properties of the rendering
  // ---------------------------------------------------------------------

  lemma {:induction false} ParseDigitsOfDigits(n: nat)
    ensures ParseDigits(Digits(n)) == n
    decreases n
  {
    var s := Digits(n);
    if n >= 10 {
      ParseDigitsOfDigits(n / 10);
      assert s[..|s| - 1] == Digits(n / 10);
    }
  }

  lemma {:induction false} ParseIgnoresLeadingZero(t: string)
    ensures ParseDigits(['0'] + t) == ParseDigits(t)
    decreases |t|
  {
    if t != [] {
      var s := ['0'] + t;
      assert s[..|s| - 1] == ['0'] + t[..|t| - 1];
      ParseIgnoresLeadingZero(t[..|t| - 1]);
    }
  }

  /** Removing leading zeros does not change the value of a digit string. */
  lemma {:induction false} ParseStripLeadingZeros(s: string)
    ensures ParseDigits(StripLeadingZeros(s)) == ParseDigits(s)
    decreases |s|
  {
    if s != [] && s[0] == '0' {
      var t := s[1..];
      calc {
        ParseDigits(StripLeadingZeros(s));
        ParseDigits(StripLeadingZeros(t));
        { ParseStripLeadingZeros(t); }
        ParseDigits(t);
        { ParseIgnoresLeadingZero(t); }
        ParseDigits(['0'] + t);
        { assert s == ['0'] + t; }
        ParseDigits(s);
      }
    }
  }

  /** The digit count of `n` is at most `k` exactly when `n < 10^k`. */
  lemma {:induction false} DigitsLength(n: nat, k: nat)
    requires k >= 1
    ensures |Digits(n)| <= k <==> n < Pow10(k)
    decreases n
  {
    if n >= 10 {
      if k == 1 {
        assert |Digits(n)| == |Digits(n / 10)| + 1;
      } else {
        DigitsLength(n / 10, k - 1);
        assert n / 10 < Pow10(k - 1) <==> n < Pow10(k);
      }
    }
  }

  /** A non-negative value is rendered as '0' characters followed by its digits,
      max(16, digit count) characters in all. */
  lemma FormatShape(n: Int64)
    requires n >= 0
    ensures var f := FormatAccountNumber(n);
      && AllDigits(f)
      && |f| == (if |Digits(n)| >= NUMBER_WIDTH then |Digits(n)| else NUMBER_WIDTH)
      && f == Repeat('0', |f| - |Digits(n)|) + Digits(n)
  {
    LongToStringOfNatural(n);
    PaddedIsRepeatThenInput(Digits(n), NUMBER_WIDTH, '0');
  }

  /** A padded string is copies of the pad character followed by the input. */
  lemma PaddedIsRepeatThenInput(s: string, totalWidth: nat, c: char)
    ensures var r := PadLeft(s, totalWidth, c); r == Repeat(c, |r| - |s|) + s
  {
    if |s| >= totalWidth {
      assert Repeat(c, 0) + s == s;
    }
  }

  lemma LongToStringOfNatural(n: Int64)
    requires n >= 0
    ensures LongToString(n) == Digits(n)
  {
  }

  /** Exactly sixteen characters below 10^16; above that the digits are kept whole. */
  lemma NumberWidth(n: Int64)
    requires n >= 0
    ensures n < Pow10(16) ==> |FormatAccountNumber(n)| == 16
    ensures n >= Pow10(16) ==> |FormatAccountNumber(n)| > 16 && FormatAccountNumber(n) == Digits(n)
  {
    DigitsLength(n, 16);
  }

  /** Stripping the leading zeros of a rendered number and reading the digits
      gives back the value it was rendered from. */
  lemma FormatRoundTrip(n: Int64)
    requires n >= 0
    ensures AccountNumberValue(FormatAccountNumber(n)) == n
  {
    var k := FormatIsPadded(n);
    PaddedDigitsValue(k, n);
  }

  lemma FormatIsPadded(n: Int64) returns (k: nat)
    requires n >= 0
    ensures FormatAccountNumber(n) == Repeat('0', k) + Digits(n)
  {
    FormatShape(n);
    k := |FormatAccountNumber(n)| - |Digits(n)|;
  }

  lemma PaddedDigitsValue(k: nat, n: nat)
    ensures AccountNumberValue(Repeat('0', k) + Digits(n)) == n
  {
    var d := Digits(n);
    var f := Repeat('0', k) + d;
    calc {
      AccountNumberValue(f);
      ParseDigits(StripLeadingZeros(f));
      { ParseStripLeadingZeros(f); }
      ParseDigits(f);
      { ZerosPrefix(k, d); }
      ParseDigits(d);
      { ParseDigitsOfDigits(n); }
      n;
    }
  }

  lemma {:induction false} ZerosPrefix(k: nat, t: string)
    ensures ParseDigits(Repeat('0', k) + t) == ParseDigits(t)
    decreases k
  {
    if k == 0 {
      assert Repeat('0', k) + t == t;
    } else {
      assert Repeat('0', k) + t == ['0'] + (Repeat('0', k - 1) + t);
      ParseIgnoresLeadingZero(Repeat('0', k - 1) + t);
      ZerosPrefix(k - 1, t);
    }
  }

  /** Distinct non-negative values never share a rendered number. */
  lemma FormatInjective(a: Int64, b: Int64)
    requires a >= 0 && b >= 0 && a != b
    ensures FormatAccountNumber(a) != FormatAccountNumber(b)
  {
    FormatRoundTrip(a);
    FormatRoundTrip(b);
  }

  /** With no accounts the number is 1, stored as "0000000000000001". */
  lemma FirstAccountNumber()
    ensures NextAccountNumber({}) == 1
    ensures FormatAccountNumber(NextAccountNumber({})) == "0000000000000001"
  {
    assert Digits(1) == "1";
    assert Repeat('0', 15) == "000000000000000";
  }

  /** With an id equal to `long.MaxValue`, unchecked `Max() + 1` wraps to
      `long.MinValue`, whose rendering starts with '-' and is no account number. */
  lemma NextNumberAtLongMax(ids: set<Int64>)
    requires LONG_MAX in ids
    ensures NextAccountNumber(ids) == LONG_MIN
    ensures FormatAccountNumber(NextAccountNumber(ids))[0] == '-'
    ensures !AllDigits(FormatAccountNumber(NextAccountNumber(ids)))
  {
    var d := Digits(-LONG_MIN);
    assert |d| > 15 by {
      DigitsLength(-LONG_MIN, 15);
      assert Pow10(15) == 1_000_000_000_000_000;
    }
    var f := FormatAccountNumber(LONG_MIN);
    assert f == LongToString(LONG_MIN);
    assert !IsDigit(f[0]);
  }
}
