/**
  Octets, octet strings and the ASCII codes the other modules name.
 */
module Bytes {
  type byte = x: int | 0 <= x < 256
  type bytes = seq<byte>

  // Control characters
  const NUL: byte := 0
  const HT: byte := 9
  const LF: byte := 10
  const FF: byte := 12
  const CR: byte := 13
  const SPACE: byte := 32

  // Punctuation
  const BANG: byte := 33
  const HASH: byte := 35
  const DOLLAR: byte := 36
  const PERCENT: byte := 37
  const AMPERSAND: byte := 38
  const QUOTE: byte := 39
  const LPAREN: byte := 40
  const RPAREN: byte := 41
  const STAR: byte := 42
  const PLUS: byte := 43
  const COMMA: byte := 44
  const DASH: byte := 45
  const DOT: byte := 46
  const SLASH: byte := 47
  const COLON: byte := 58
  const SEMICOLON: byte := 59
  const EQUALS: byte := 61
  const QUESTION: byte := 63
  const AT: byte := 64
  const LBRACKET: byte := 91
  const RBRACKET: byte := 93
  const UNDERSCORE: byte := 95
  const TILDE: byte := 126

  /** The codes of an ASCII text. */
  function Codes(s: string): (b: bytes)
    requires forall i | 0 <= i < |s| :: s[i] as int < 128
    ensures |b| == |s|
  {
    seq<byte>(|s|, i requires 0 <= i < |s| => s[i] as int)
  }

  /** The names above are those of the characters they stand for. */
  lemma Names()
    ensures [NUL, HT, LF, FF, CR, SPACE] == [0, '\t' as int, '\n' as int, 12, '\r' as int, ' ' as int]
    ensures [BANG, HASH, DOLLAR, PERCENT, AMPERSAND, QUOTE, LPAREN, RPAREN, STAR, PLUS, COMMA, DASH, DOT, SLASH]
         == Codes("!#$%&'()*+,-./")
    ensures [COLON, SEMICOLON, EQUALS, QUESTION, AT, LBRACKET, RBRACKET, UNDERSCORE, TILDE] == Codes(":;=?@[]_~")
  {
  }

  predicate IsDigit(c: byte) { 48 <= c <= 57 }

  predicate IsUpper(c: byte) { 65 <= c <= 90 }

  predicate IsLower(c: byte) { 97 <= c <= 122 }

  /** isspace in the C locale. */
  predicate IsSpace(c: byte) { c == SPACE || 9 <= c <= 13 }

  lemma SpaceClass(c: byte)
    ensures IsSpace(c) <==> c in {' ' as int, '\t' as int, '\n' as int, 11, 12, '\r' as int}
  {
  }

  function SkipSpaces(s: bytes): bytes {
    if s != [] && IsSpace(s[0]) then SkipSpaces(s[1..]) else s
  }

  predicate AllDigits(s: bytes) {
    forall i | 0 <= i < |s| :: IsDigit(s[i])
  }

  /** The number a string of decimal digits denotes. */
  function Value(s: bytes): nat
    requires AllDigits(s)
  {
    if s == [] then 0 else 10 * Value(s[..|s| - 1]) + (s[|s| - 1] - 48)
  }

  /** The longest prefix of s made of digits. */
  function DigitPrefix(s: bytes): (d: bytes)
    ensures AllDigits(d) && d <= s
  {
    if s != [] && IsDigit(s[0]) then [s[0]] + DigitPrefix(s[1..]) else []
  }

  lemma {:induction false} DigitPrefixOf(d: bytes, rest: bytes)
    requires AllDigits(d) && (rest == [] || !IsDigit(rest[0]))
    ensures DigitPrefix(d + rest) == d
  {
    if d == [] {
      assert d + rest == rest;
    } else {
      assert (d + rest)[1..] == d[1..] + rest;
      DigitPrefixOf(d[1..], rest);
    }
  }

  /** The octets of a one-octet option that is present or not. */
  function Opt(present: bool, c: byte): bytes {
    if present then [c] else []
  }

  function Repeat(c: byte, n: nat): (s: bytes)
    ensures |s| == n
  {
    seq(n, _ => c)
  }

  /** std::copy and std::copy_n of a whole string to an iterator; the end of the copy is returned. */
  method CopyN(s: bytes, dst: array<byte>, p: nat) returns (q: nat)
    requires p + |s| <= dst.Length
    modifies dst
    ensures q == p + |s|
    ensures dst[..p] == old(dst[..p]) && dst[p..q] == s && dst[q..] == old(dst[q..])
  {
    q := p + |s|;
    forall i | 0 <= i < |s| {
      dst[p + i] := s[i];
    }
  }
}
