/** String helpers shared by both renderers: Java's decimal rendering of
    integers (`Long.toString`, `"" + int`), `String.contains`,
    `String.lastIndexOf`, and character counting. */
module Text {

  predicate IsDigit(c: char) {
    '0' <= c <= '9'
  }

  predicate AllDigits(s: string) {
    forall k :: 0 <= k < |s| ==> IsDigit(s[k])
  }

  function DigitChar(d: nat): (c: char)
    requires d < 10
    ensures IsDigit(c)
    ensures c as int - '0' as int == d
  {
    ('0' as int + d) as char
  }

  function DigitValue(c: char): (d: nat)
    requires IsDigit(c)
    ensures d < 10
  {
    c as int - '0' as int
  }

  /** `k % 10`, written by repeated subtraction so that proofs about the
      strings built from it stay within linear arithmetic. */
  function Mod10(k: nat): (r: nat)
    ensures r < 10
  {
    if k < 10 then k else Mod10(k - 10)
  }

  /** `k / 10`, by repeated subtraction. */
  function Div10(k: nat): (r: nat)
    ensures 10 * r + Mod10(k) == k
  {
    if k < 10 then 0 else 1 + Div10(k - 10)
  }

  lemma {:induction false} Mod10Div10(k: nat)
    ensures Mod10(k) == k % 10
    ensures Div10(k) == k / 10
  {
    if k >= 10 {
      Mod10Div10(k - 10);
    }
  }

  lemma {:induction false} Mod10Step(k: nat)
    ensures Mod10(k + 1) == if Mod10(k) == 9 then 0 else Mod10(k) + 1
    ensures Div10(k + 1) == Div10(k) + (if Mod10(k + 1) == 0 then 1 else 0)
  {
    if k >= 10 {
      Mod10Step(k - 10);
    }
  }

  /** Decimal digits of `n`, most significant first, without leading zeros. */
  function NatToString(n: nat): (s: string)
    ensures |s| >= 1
    ensures AllDigits(s)
    ensures s[0] == '0' ==> n == 0
  {
    if n < 10 then [DigitChar(n)] else NatToString(Div10(n)) + [DigitChar(Mod10(n))]
  }

  /** Reads a string of decimal digits back as a number. */
  function ParseNat(s: string): nat
    requires AllDigits(s)
  {
    if |s| == 0 then 0 else 10 * ParseNat(s[..|s| - 1]) + DigitValue(s[|s| - 1])
  }

  /** Java's decimal rendering of an integral value: an optional minus sign
      followed by the digits of the magnitude. */
  function IntToString(i: int): (s: string)
    ensures |s| >= 1
    ensures forall k :: 0 <= k < |s| ==> s[k] == '-' || IsDigit(s[k])
    ensures IsDigit(s[|s| - 1])
  {
    if i < 0 then "-" + NatToString(-i) else NatToString(i)
  }

  function ParseInt(s: string): int
    requires |s| >= 1
    requires s[0] == '-' ==> AllDigits(s[1..])
    requires s[0] != '-' ==> AllDigits(s)
  {
    if s[0] == '-' then -(ParseNat(s[1..]) as int) else ParseNat(s)
  }

  /** Decimal rendering is lossless: parsing it back yields the number. */
  lemma {:induction false} ParseNatOfNatToString(n: nat)
    ensures ParseNat(NatToString(n)) == n
  {
    if n >= 10 {
      var s := NatToString(n);
      ParseNatOfNatToString(Div10(n));
      assert s[..|s| - 1] == NatToString(Div10(n));
    }
  }

  lemma ParseIntOfIntToString(i: int)
    ensures var s := IntToString(i);
            (s[0] == '-' ==> AllDigits(s[1..])) && (s[0] != '-' ==> AllDigits(s)) &&
            ParseInt(s) == i
  {
    var s := IntToString(i);
    if i < 0 {
      assert s[1..] == NatToString(-i);
      ParseNatOfNatToString(-i);
    } else {
      ParseNatOfNatToString(i);
    }
  }

  predicate IsPrefix(p: string, s: string) {
    |p| <= |s| && s[..|p|] == p
  }

  predicate IsSuffix(p: string, s: string) {
    |p| <= |s| && s[|s| - |p|..] == p
  }

  /** Java's `s.contains(sub)`. */
  predicate Contains(s: string, sub: string)
    decreases |s|
  {
    IsPrefix(sub, s) || (|s| > 0 && Contains(s[1..], sub))
  }

  /** Java's `s.lastIndexOf(c)`: the greatest index holding `c`, or -1. */
  function LastIndexOf(s: string, c: char): (r: int)
    ensures -1 <= r < |s|
    ensures r >= 0 ==> s[r] == c
    ensures forall k :: r < k < |s| ==> s[k] != c
  {
    if |s| == 0 then -1
    else if s[|s| - 1] == c then |s| - 1
    else LastIndexOf(s[..|s| - 1], c)
  }

  /** Number of occurrences of `c` in `s`. */
  function CountChar(c: char, s: string): nat
  {
    if |s| == 0 then 0 else CountChar(c, s[..|s| - 1]) + (if s[|s| - 1] == c then 1 else 0)
  }

  /** `s` with every occurrence of `c` removed. */
  function RemoveChar(c: char, s: string): string
  {
    if |s| == 0 then [] else RemoveChar(c, s[..|s| - 1]) + (if s[|s| - 1] == c then [] else [s[|s| - 1]])
  }

  lemma {:induction false} CountCharConcat(c: char, a: string, b: string)
    ensures CountChar(c, a + b) == CountChar(c, a) + CountChar(c, b)
    decreases |b|
  {
    if |b| > 0 {
      assert (a + b)[..|a + b| - 1] == a + b[..|b| - 1];
      CountCharConcat(c, a, b[..|b| - 1]);
    } else {
      assert a + b == a;
    }
  }

  lemma {:induction false} RemoveCharConcat(c: char, a: string, b: string)
    ensures RemoveChar(c, a + b) == RemoveChar(c, a) + RemoveChar(c, b)
    decreases |b|
  {
    if |b| > 0 {
      assert (a + b)[..|a + b| - 1] == a + b[..|b| - 1];
      RemoveCharConcat(c, a, b[..|b| - 1]);
    } else {
      assert a + b == a;
    }
  }

  /** A string without `c` neither counts nor loses any `c`. */
  lemma {:induction false} AbsentChar(c: char, s: string)
    requires forall k :: 0 <= k < |s| ==> s[k] != c
    ensures CountChar(c, s) == 0
    ensures RemoveChar(c, s) == s
  {
    if |s| > 0 {
      AbsentChar(c, s[..|s| - 1]);
    }
  }

  /** Dropping the last character of a concatenation drops it from the
      second part. */
  lemma DropLast(a: string, b: string)
    requires |b| >= 1
    ensures (a + b)[..|a + b| - 1] == a + b[..|b| - 1]
  {
  }

  /** Concatenation of a sequence of strings. */
  function Concat(ss: seq<string>): string
  {
    if |ss| == 0 then "" else Concat(ss[..|ss| - 1]) + ss[|ss| - 1]
  }

  lemma {:induction false} ConcatAppend(a: seq<string>, b: seq<string>)
    ensures Concat(a + b) == Concat(a) + Concat(b)
    decreases |b|
  {
    if |b| == 0 {
      assert a + b == a;
    } else {
      var ab := a + b;
      assert ab[..|ab| - 1] == a + b[..|b| - 1];
      ConcatAppend(a, b[..|b| - 1]);
    }
  }
}
