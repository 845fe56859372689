/**
  Decimal printing and overflow-checked parsing (include/sessionutil.h).
 */
module Decimal {
  import opened Bytes

  /** std::numeric_limits<int64_t>::max() */
  const INT64_MAX := 0x7fff_ffff_ffff_ffff

  /** The decimal digits of n, without leading zeros. */
  function Digits(n: nat): bytes {
    if n < 10 then [n + 48] else Digits(n / 10) + [n % 10 + 48]
  }

  /** utos: size a buffer with one loop, fill it from the back with another. */
  method Utos(m: nat) returns (res: bytes)
    ensures res == Digits(m)
  {
    var n := m;
    if n == 0 {
      return [48];
    }
    var nlen := 0;
    var t := n;
    while t != 0
      invariant nlen + (if t == 0 then 0 else |Digits(t)|) == |Digits(n)|
    {
      t := t / 10;
      nlen := nlen + 1;
    }
    var a := new byte[nlen];
    while n != 0
      invariant 0 <= nlen <= a.Length == |Digits(m)|
      invariant nlen == if n == 0 then 0 else |Digits(n)|
      invariant (if n == 0 then [] else Digits(n)) + a[nlen..] == Digits(m)
      decreases n
    {
      ghost var (d, back) := (Digits(n), a[nlen..]);
      nlen := nlen - 1;
      a[nlen] := n % 10 + 48;
      assert a[nlen..] == [n % 10 + 48] + back;
      n := n / 10;
      assert (if n == 0 then [] else Digits(n)) + [a[nlen]] == d;
      assert (if n == 0 then [] else Digits(n)) + a[nlen..] == d + back;
    }
    res := a[..];
  }

  /** parse_uint_digits: the value and length of the longest digit prefix, or (-1, 0). */
  method ParseUintDigits(s: bytes) returns (n: int, i: nat)
    ensures var d := DigitPrefix(s);
            if d != [] && Value(d) <= 9223372036854775807 then n == Value(d) && i == |d| else n == -1 && i == 0
  {
    n, i := 0, 0;
    if |s| == 0 {
      return -1, 0;
    }
    while i < |s|
      invariant 0 <= i <= |s|
      invariant AllDigits(s[..i]) && n == Value(s[..i]) <= INT64_MAX
    {
      if !IsDigit(s[i]) {
        break;
      }
      assert s[..i + 1][..i] == s[..i];
      if n > INT64_MAX / 10 {
        TooLong(s, i + 1);
        return -1, 0;
      }
      n := n * 10;
      assert n <= INT64_MAX;
      if n > INT64_MAX - (s[i] - 48) {
        TooLong(s, i + 1);
        return -1, 0;
      }
      n := n + (s[i] - 48);
      i := i + 1;
    }
    assert s == s[..i] + s[i..];
    DigitPrefixOf(s[..i], s[i..]);
    if i == 0 {
      return -1, 0;
    }
  }

  /** parse_uint: a whole string of digits, or -1. */
  method ParseUint(s: bytes) returns (r: int)
    ensures r == if s != [] && AllDigits(s) && Value(s) <= 9223372036854775807 then Value(s) else -1
  {
    var n, i := ParseUintDigits(s);
    WholePrefix(s);
    if n == -1 || i != |s| {
      return -1;
    }
    return n;
  }

  /** A longer digit string is worth no less. */
  lemma {:induction false} ValueGrows(d: bytes, i: nat)
    requires AllDigits(d) && i <= |d|
    ensures Value(d[..i]) <= Value(d)
  {
    if i == |d| {
      assert d[..i] == d;
    } else {
      var e := d[..|d| - 1];
      assert e[..i] == d[..i];
      ValueGrows(e, i);
    }
  }

  lemma {:induction false} InPrefix(s: bytes, i: nat)
    requires i <= |s| && AllDigits(s[..i])
    ensures s[..i] <= DigitPrefix(s)
  {
    if i > 0 {
      assert s[0] == s[..i][0];
      assert s[1..][..i - 1] == s[..i][1..];
      InPrefix(s[1..], i - 1);
    }
  }

  lemma TooLong(s: bytes, i: nat)
    requires i <= |s| && AllDigits(s[..i]) && Value(s[..i]) > INT64_MAX
    ensures Value(DigitPrefix(s)) > INT64_MAX
  {
    InPrefix(s, i);
    assert DigitPrefix(s)[..i] == s[..i];
    ValueGrows(DigitPrefix(s), i);
  }

  lemma WholePrefix(s: bytes)
    ensures |DigitPrefix(s)| == |s| <==> AllDigits(s)
    ensures AllDigits(s) ==> DigitPrefix(s) == s
  {
    if AllDigits(s) {
      DigitPrefixOf(s, []);
      assert s + [] == s;
    }
  }

  /** utos then parse_uint: the digits of n are digits, and worth n. */
  lemma {:induction false} PrintedIsParsed(n: nat)
    ensures Digits(n) != [] && AllDigits(Digits(n)) && Value(Digits(n)) == n
  {
    if n >= 10 {
      PrintedIsParsed(n / 10);
      assert Digits(n)[..|Digits(n)| - 1] == Digits(n / 10);
    } else {
      assert Value([n + 48][..0]) == 0;
    }
  }

  /** parse_uint then utos: a number's text comes back unless it has a leading zero. */
  lemma {:induction false} ParsedIsPrinted(d: bytes)
    requires d != [] && AllDigits(d)
    ensures Digits(Value(d)) == d <==> |d| == 1 || d[0] != 48
  {
    var n := |d| - 1;
    if n > 0 {
      ParsedIsPrinted(d[..n]);
      assert d == d[..n] + [d[n]];
      if d[0] != 48 {
        Positive(d[..n]);
      } else {
        NoLeadingZero(Value(d));
      }
    } else {
      assert d[..0] == [];
    }
  }

  lemma {:induction false} Positive(d: bytes)
    requires d != [] && AllDigits(d) && d[0] != 48
    ensures Value(d) > 0
  {
    ValueGrows(d, 1);
    assert d[..1][..0] == [];
  }

  lemma {:induction false} NoLeadingZero(n: nat)
    ensures |Digits(n)| > 1 ==> Digits(n)[0] != 48
  {
    if n >= 10 {
      NoLeadingZero(n / 10);
    }
  }
}
