/**
 * Decimal text as the renderer sees it: Python's str() of a non-negative int,
 * str.zfill, int() of one digit character, and the positional value of a list
 * of digits (int("".join(map(str, digits)))).
 */
module Decimal {
  import opened Arith

  predicate IsDigitChar(c: char)
  {
    '0' <= c <= '9'
  }

  /** The character printed for a digit value 0..9. */
  function DigitChar(d: int): (c: char)
    requires 0 <= d <= 9
    ensures IsDigitChar(c)
  {
    ('0' as int + d) as char
  }

  /** int(c) for one digit character. */
  function CharValue(c: char): (v: int)
    ensures IsDigitChar(c) ==> 0 <= v <= 9
  {
    c as int - '0' as int
  }

  /** str(n) for n >= 0: the shortest decimal spelling, without a leading zero. */
  function DecimalString(n: nat): (s: string)
    ensures |s| >= 1
    ensures forall k :: 0 <= k < |s| ==> IsDigitChar(s[k])
    ensures |s| > 1 ==> s[0] != '0'
    decreases n
  {
    if n < 10 then [DigitChar(n)] else DecimalString(n / 10) + [DigitChar(n % 10)]
  }

  /**
   * The length L of str(n) is the number of decimal digits of n:
   * n < 10^L, and 10^(L-1) <= n whenever L > 1.
   */
  lemma {:induction false} DecimalLength(n: nat)
    ensures n < Pow(10, |DecimalString(n)|)
    ensures |DecimalString(n)| > 1 ==> Pow(10, |DecimalString(n)| - 1) <= n
    decreases n
  {
    if n >= 10 {
      DecimalLength(n / 10);
      var L := |DecimalString(n / 10)|;
      assert |DecimalString(n)| == L + 1;
      assert Pow(10, L + 1) == 10 * Pow(10, L);
      if L > 1 {
        assert Pow(10, L) == 10 * Pow(10, L - 1);
      }
    }
  }

  /** str.zfill(width) on a string of digits (no sign): pad on the left with '0'. */
  function ZFill(s: string, width: nat): (r: string)
    requires forall k :: 0 <= k < |s| ==> IsDigitChar(s[k])
    ensures |r| == if |s| >= width then |s| else width
    ensures r[|r| - |s|..] == s
    ensures forall k :: 0 <= k < |r| - |s| ==> r[k] == '0'
  {
    if |s| >= width then s else Zeros(width - |s|) + s
  }

  /** k padding characters '0'. */
  function Zeros(k: nat): (z: string)
    ensures |z| == k
    ensures forall i :: 0 <= i < k ==> z[i] == '0'
  {
    if k == 0 then [] else ['0'] + Zeros(k - 1)
  }

  /** The character j places from the right of str(n) is the j-th decimal digit of n. */
  lemma {:induction false} DigitFromRight(n: nat, j: nat)
    requires j < |DecimalString(n)|
    ensures CharValue(DecimalString(n)[|DecimalString(n)| - 1 - j]) == DigitAt(n, j)
    decreases n
  {
    var s := DecimalString(n);
    if n >= 10 {
      var s' := DecimalString(n / 10);
      assert s == s' + [DigitChar(n % 10)];
      if j > 0 {
        DigitFromRight(n / 10, j - 1);
        assert s[|s| - 1 - j] == s'[|s'| - 1 - (j - 1)];
      }
    }
  }

  /**
   * The digit extraction of the single-glyph renderer: for 0 <= num <= 9999,
   * int(str(num).zfill(4)[3 - i]) is the i-th decimal digit (num / 10^i) % 10.
   */
  lemma PaddedDigit(num: int, i: nat)
    requires 0 <= num <= 9999 && i < 4
    ensures IsDigitChar(ZFill(DecimalString(num), 4)[3 - i])
    ensures CharValue(ZFill(DecimalString(num), 4)[3 - i]) == (num / Pow(10, i)) % 10
  {
    PaddedDigitAt(num, i);
    DigitAtPow(num, i);
  }

  /** The same, with the digit by repeated division. */
  lemma PaddedDigitAt(num: int, i: nat)
    requires 0 <= num <= 9999 && i < 4
    ensures IsDigitChar(ZFill(DecimalString(num), 4)[3 - i])
    ensures CharValue(ZFill(DecimalString(num), 4)[3 - i]) == DigitAt(num, i)
  {
    AtMostFourDigits(num);
    ZFillIndex(DecimalString(num), 4, 3 - i);
    if i < |DecimalString(num)| {
      PaddedFromText(num, i);
    } else {
      PaddedFromPad(num, i);
    }
  }

  lemma PaddedFromText(num: int, i: nat)
    requires 0 <= num <= 9999 && i < 4 && i < |DecimalString(num)|
    ensures CharValue(ZFill(DecimalString(num), 4)[3 - i]) == DigitAt(num, i)
  {
    var s := DecimalString(num);
    AtMostFourDigits(num);
    PaddedCharFromText(s, i);
    DigitFromRight(num, i);
  }

  lemma PaddedCharFromText(s: string, i: nat)
    requires forall k :: 0 <= k < |s| ==> IsDigitChar(s[k])
    requires i < |s| <= 4
    ensures ZFill(s, 4)[3 - i] == s[|s| - 1 - i]
  {
    ZFillSuffix(s, 4, i);
  }

  /** The j-th character from the right of a zero-filled string is that of s. */
  lemma ZFillSuffix(s: string, width: nat, j: nat)
    requires forall k :: 0 <= k < |s| ==> IsDigitChar(s[k])
    requires |s| <= width && j < |s|
    ensures ZFill(s, width)[width - 1 - j] == s[|s| - 1 - j]
  {
    ZFillIndex(s, width, width - 1 - j);
  }

  lemma PaddedFromPad(num: int, i: nat)
    requires 0 <= num <= 9999 && i < 4 && |DecimalString(num)| <= i
    ensures CharValue(ZFill(DecimalString(num), 4)[3 - i]) == DigitAt(num, i)
  {
    AtMostFourDigits(num);
    ZFillIndex(DecimalString(num), 4, 3 - i);
    DigitBeyondLength(num, i);
  }

  /** Digits at or beyond the length of str(n) are zero. */
  lemma DigitBeyondLength(n: nat, j: nat)
    requires |DecimalString(n)| <= j
    ensures DigitAt(n, j) == 0
  {
    DecimalLength(n);
    PowMonotone(10, |DecimalString(n)|, j);
    DigitAtBeyond(n, j);
  }

  /** Position k of a zero-filled string: a pad '0', or the matching character of s. */
  lemma ZFillIndex(s: string, width: nat, k: nat)
    requires forall i :: 0 <= i < |s| ==> IsDigitChar(s[i])
    requires |s| <= width && k < width
    ensures |ZFill(s, width)| == width
    ensures ZFill(s, width)[k] == if k < width - |s| then '0' else s[k - (width - |s|)]
  {
    var r := ZFill(s, width);
    if k >= width - |s| {
      assert r[k] == r[width - |s|..][k - (width - |s|)];
    }
  }

  /** str(n).zfill(4) is at least four characters long and all of them are digits. */
  lemma PaddedAllDigits(n: nat)
    ensures |ZFill(DecimalString(n), 4)| >= 4
    ensures forall k :: 0 <= k < |ZFill(DecimalString(n), 4)| ==> IsDigitChar(ZFill(DecimalString(n), 4)[k])
  {
    var s := DecimalString(n);
    if |s| < 4 {
      forall k | 0 <= k < 4
        ensures IsDigitChar(ZFill(s, 4)[k])
      {
        ZFillIndex(s, 4, k);
      }
    }
  }

  /** From 1000 on, str(n) has at least four characters. */
  lemma AtLeastFourDigits(n: nat)
    requires n >= 1000
    ensures |DecimalString(n)| >= 4
  {
    DecimalLength(n);
    if |DecimalString(n)| < 4 {
      PowMonotone(10, |DecimalString(n)|, 3);
    }
  }

  lemma AtMostFourDigits(num: nat)
    requires num <= 9999
    ensures |DecimalString(num)| <= 4
  {
    var s := DecimalString(num);
    DecimalLength(num);
    assert Pow(10, 4) == 10000;
    if |s| > 4 {
      PowMonotone(10, 4, |s| - 1);
    }
  }

  /** [int(d) for d in str(n)]: the decimal digits of n, most significant first. */
  function DigitList(n: nat): (ds: seq<int>)
    ensures |ds| == |DecimalString(n)|
    ensures forall k :: 0 <= k < |ds| ==> 0 <= ds[k] <= 9
  {
    var s := DecimalString(n);
    seq(|s|, k requires 0 <= k < |s| => CharValue(s[k]))
  }

  /** The positional value of a digit list, most significant first. */
  function ParseDigits(ds: seq<int>): int
  {
    if |ds| == 0 then 0 else ParseDigits(ds[..|ds| - 1]) * 10 + ds[|ds| - 1]
  }

  /** Reading back the digit list of n gives n. */
  lemma {:induction false} ParseDigitList(n: nat)
    ensures ParseDigits(DigitList(n)) == n
    decreases n
  {
    var ds := DigitList(n);
    if n >= 10 {
      var ds' := DigitList(n / 10);
      assert ds[..|ds| - 1] == ds' by {
        assert DecimalString(n) == DecimalString(n / 10) + [DigitChar(n % 10)];
      }
      ParseDigitList(n / 10);
    }
  }

  /** Concatenating digit lists shifts the left part by the length of the right. */
  lemma {:induction false} ParseAppend(a: seq<int>, b: seq<int>)
    ensures ParseDigits(a + b) == ParseDigits(a) * Pow(10, |b|) + ParseDigits(b)
    decreases |b|
  {
    if |b| == 0 {
      assert a + b == a;
    } else {
      var b' := b[..|b| - 1];
      assert (a + b)[..|a + b| - 1] == a + b';
      ParseAppend(a, b');
      calc {
        ParseDigits(a + b);
        ParseDigits(a + b') * 10 + b[|b| - 1];
        (ParseDigits(a) * Pow(10, |b'|) + ParseDigits(b')) * 10 + b[|b| - 1];
        ParseDigits(a) * (Pow(10, |b'|) * 10) + (ParseDigits(b') * 10 + b[|b| - 1]);
        ParseDigits(a) * Pow(10, |b|) + ParseDigits(b);
      }
    }
  }

  /** A list of k digits has a value in [0, 10^k). */
  lemma {:induction false} ParseBound(ds: seq<int>)
    requires forall k :: 0 <= k < |ds| ==> 0 <= ds[k] <= 9
    ensures 0 <= ParseDigits(ds) < Pow(10, |ds|)
  {
    if |ds| > 0 {
      ParseBound(ds[..|ds| - 1]);
    }
  }
}
