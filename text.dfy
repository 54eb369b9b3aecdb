/**
 * The two string operations that `move` applies: `str.lower()` on thread names
 * and `str(int)` on the requested message count.  Lowering is the ASCII subset
 * of Python's case mapping.
 */
module Text {

  predicate IsUpper(c: char) {
    'A' <= c <= 'Z'
  }

  /** ASCII lowercasing of one character; every other character is unchanged. */
  function LowerChar(c: char): (r: char)
    ensures !IsUpper(r)
    ensures IsUpper(c) ==> r as int == c as int + 32
    ensures !IsUpper(c) ==> r == c
  {
    if IsUpper(c) then (c as int + 32) as char else c
  }

  /** `s.lower()`, character by character. */
  function Lower(s: string): string
  {
    if s == [] then [] else [LowerChar(s[0])] + Lower(s[1..])
  }

  /** Lowering keeps the length and maps every position through LowerChar. */
  lemma {:induction false} LowerAt(s: string)
    ensures |Lower(s)| == |s|
    ensures forall i :: 0 <= i < |s| ==> Lower(s)[i] == LowerChar(s[i])
  {
    if s != [] {
      LowerAt(s[1..]);
      assert forall i :: 1 <= i < |s| ==> Lower(s)[i] == Lower(s[1..])[i - 1];
    }
  }

  /** Lowering twice is lowering once, so `thread_name.lower().lower()` is `thread_name.lower()`. */
  lemma {:induction false} LowerIdempotent(s: string)
    ensures Lower(Lower(s)) == Lower(s)
  {
    if s != [] {
      LowerIdempotent(s[1..]);
      assert Lower(s) == [LowerChar(s[0])] + Lower(s[1..]);
      assert Lower(s)[1..] == Lower(s[1..]);
    }
  }

  /** Two strings are equal ignoring case exactly when they agree position by position after LowerChar. */
  lemma EqualIgnoringCase(a: string, b: string)
    ensures Lower(a) == Lower(b) <==>
      |a| == |b| && forall i :: 0 <= i < |a| ==> LowerChar(a[i]) == LowerChar(b[i])
  {
    LowerAt(a);
    LowerAt(b);
    if Lower(a) == Lower(b) {
      forall i | 0 <= i < |a| ensures LowerChar(a[i]) == LowerChar(b[i]) {
        assert Lower(a)[i] == Lower(b)[i];
      }
    } else if |a| == |b| {
      var k :| 0 <= k < |a| && Lower(a)[k] != Lower(b)[k];
      assert LowerChar(a[k]) != LowerChar(b[k]);
    }
  }

  // ---------------------------------------------------------------------------
  // Decimal rendering of integers, as Python's `str(int)`, and its inverse.

  predicate IsDigit(c: char) {
    '0' <= c <= '9'
  }

  function DigitChar(d: nat): (c: char)
    requires d < 10
    ensures IsDigit(c)
  {
    ('0' as int + d) as char
  }

  function DigitValue(c: char): (d: nat)
    requires IsDigit(c)
    ensures d < 10 && DigitChar(d) == c
  {
    c as int - '0' as int
  }

  /** The shortest decimal spelling of `n`. */
  function NatToDigits(n: nat): string
    decreases n
  {
    if n < 10 then [DigitChar(n)] else NatToDigits(n / 10) + [DigitChar(n % 10)]
  }

  /** `str(n)`: a minus sign in front of the digits of a negative number. */
  function IntToString(n: int): string
  {
    if n < 0 then "-" + NatToDigits(-n) else NatToDigits(n)
  }

  predicate AllDigits(s: string) {
    forall i :: 0 <= i < |s| ==> IsDigit(s[i])
  }

  /** The value of a string of decimal digits, most significant first. */
  function DigitsValue(s: string): nat
    requires AllDigits(s)
  {
    if s == [] then 0 else DigitsValue(s[..|s| - 1]) * 10 + DigitValue(s[|s| - 1])
  }

  /** `int(s)` for what IntToString produces; anything else reads as 0. */
  function ParseInt(s: string): int
  {
    if |s| > 0 && s[0] == '-' && AllDigits(s[1..]) then -(DigitsValue(s[1..]) as int)
    else if AllDigits(s) then DigitsValue(s)
    else 0
  }

  /** NatToDigits yields a non-empty digit string without a leading zero that reads back as `n`. */
  lemma {:induction false} NatToDigitsRoundTrip(n: nat)
    ensures NatToDigits(n) != [] && AllDigits(NatToDigits(n))
    ensures DigitsValue(NatToDigits(n)) == n
    ensures NatToDigits(n)[0] == '0' ==> n == 0
  {
    if n >= 10 {
      NatToDigitsRoundTrip(n / 10);
      var s := NatToDigits(n);
      assert s == NatToDigits(n / 10) + [DigitChar(n % 10)];
      assert s[..|s| - 1] == NatToDigits(n / 10);
      assert s[0] == NatToDigits(n / 10)[0];
    }
  }

  /** `int(str(n)) == n` for every integer. */
  lemma IntToStringRoundTrip(n: int)
    ensures ParseInt(IntToString(n)) == n
    ensures IntToString(n) != []
  {
    if n < 0 {
      NatToDigitsRoundTrip(-n);
      assert IntToString(n)[1..] == NatToDigits(-n);
    } else {
      NatToDigitsRoundTrip(n);
    }
  }
}
