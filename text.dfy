/**
 * The text parts of the Netpbm headers: decimal numbers as printf's "%ld"
 * writes them, and the scanning that sscanf's "%s" and "%ld" conversions do
 * (skip white space, then take the longest run of the wanted characters).
 */
module Text {
  import opened Raster

  /** isspace: blank, tab, newline, vertical tab, form feed, carriage return. */
  predicate IsSpace(c: Byte)
  {
    c == 32 || 9 <= c <= 13
  }

  predicate IsDigit(c: Byte)
  {
    48 <= c <= 57
  }

  predicate AllDigits(s: seq<Byte>)
  {
    forall i :: 0 <= i < |s| ==> IsDigit(s[i])
  }

  /** The decimal digits of n, most significant first, without leading zeros. */
  function Decimal(n: nat): (s: seq<Byte>)
    ensures 1 <= |s| && AllDigits(s)
    ensures |s| > 1 ==> s[0] != 48
  {
    if n < 10 then [48 + n] else Decimal(n / 10) + [48 + n % 10]
  }

  /** The number the first n digits of s denote. */
  function PrefixValue(s: seq<Byte>, n: nat): nat
    requires n <= |s| && AllDigits(s)
  {
    if n == 0 then 0 else 10 * PrefixValue(s, n - 1) + (s[n - 1] - 48)
  }

  /** The number a run of decimal digits denotes. */
  function DigitsValue(s: seq<Byte>): nat
    requires AllDigits(s)
  {
    PrefixValue(s, |s|)
  }

  /** Digits appended after the first n do not change their value. */
  lemma {:induction false} PrefixValueAppend(s: seq<Byte>, t: seq<Byte>, n: nat)
    requires n <= |s| && AllDigits(s) && AllDigits(s + t)
    ensures PrefixValue(s + t, n) == PrefixValue(s, n)
  {
    if n > 0 {
      PrefixValueAppend(s, t, n - 1);
    }
  }

  /** Reading back the digits printed for n gives n. */
  lemma {:induction false} DecimalValue(n: nat)
    ensures DigitsValue(Decimal(n)) == n
  {
    if n >= 10 {
      var d := Decimal(n / 10);
      assert Decimal(n) == d + [48 + n % 10];
      PrefixValueAppend(d, [48 + n % 10], |d|);
      DecimalValue(n / 10);
      assert DigitsValue(Decimal(n)) == 10 * (n / 10) + n % 10;
    } else {
      assert PrefixValue(Decimal(n), 0) == 0;
    }
  }

  /** The end of the run of white space that starts at i. */
  function SkipSpace(s: seq<Byte>, i: nat): (j: nat)
    requires i <= |s|
    ensures i <= j <= |s|
    decreases |s| - i
  {
    if i < |s| && IsSpace(s[i]) then SkipSpace(s, i + 1) else i
  }

  /** The end of the run of non-space characters that starts at i ("%s"). */
  function TokenEnd(s: seq<Byte>, i: nat): (j: nat)
    requires i <= |s|
    ensures i <= j <= |s|
    decreases |s| - i
  {
    if i < |s| && !IsSpace(s[i]) then TokenEnd(s, i + 1) else i
  }

  /** The end of the run of decimal digits that starts at i ("%ld" without a sign). */
  function DigitsEnd(s: seq<Byte>, i: nat): (j: nat)
    requires i <= |s|
    ensures i <= j <= |s| && AllDigits(s[i..j])
    decreases |s| - i
  {
    if i < |s| && IsDigit(s[i]) then
      var j := DigitsEnd(s, i + 1);
      assert forall k :: 0 <= k < j - i ==> s[i..j][k] == if k == 0 then s[i] else s[i + 1..j][k - 1];
      j
    else i
  }

  /** SkipSpace stops at the first byte that is not white space. */
  lemma {:induction false} SkipSpaceStops(s: seq<Byte>, i: nat)
    requires i <= |s|
    ensures var j := SkipSpace(s, i);
      (j == |s| || !IsSpace(s[j])) && forall k :: i <= k < j ==> IsSpace(s[k])
    decreases |s| - i
  {
    if i < |s| && IsSpace(s[i]) {
      SkipSpaceStops(s, i + 1);
    }
  }

  /** TokenEnd stops at the first white space. */
  lemma {:induction false} TokenEndStops(s: seq<Byte>, i: nat)
    requires i <= |s|
    ensures var j := TokenEnd(s, i);
      (j == |s| || IsSpace(s[j])) && forall k :: i <= k < j ==> !IsSpace(s[k])
    decreases |s| - i
  {
    if i < |s| && !IsSpace(s[i]) {
      TokenEndStops(s, i + 1);
    }
  }

  /** DigitsEnd stops at the first byte that is not a digit. */
  lemma {:induction false} DigitsEndStops(s: seq<Byte>, i: nat)
    requires i <= |s|
    ensures var j := DigitsEnd(s, i); j == |s| || !IsDigit(s[j])
    decreases |s| - i
  {
    if i < |s| && IsDigit(s[i]) {
      DigitsEndStops(s, i + 1);
    }
  }

  /** A run of non-space bytes from i to n, followed by white space, ends at n. */
  lemma {:induction false} TokenEndAt(s: seq<Byte>, i: nat, n: nat)
    requires i <= n < |s| && IsSpace(s[n])
    requires forall k :: i <= k < n ==> !IsSpace(s[k])
    ensures TokenEnd(s, i) == n
    decreases n - i
  {
    if i < n {
      TokenEndAt(s, i + 1, n);
    }
  }

  /** A run of digits from i to n, followed by a non-digit, ends at n. */
  lemma {:induction false} DigitsEndAt(s: seq<Byte>, i: nat, n: nat)
    requires i <= n < |s| && !IsDigit(s[n])
    requires forall k :: i <= k < n ==> IsDigit(s[k])
    ensures DigitsEnd(s, i) == n
    decreases n - i
  {
    if i < n {
      DigitsEndAt(s, i + 1, n);
    }
  }
}
