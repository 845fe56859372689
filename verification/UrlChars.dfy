/**
  The character classes of third-party/url-parser, as its macros define them
  when HTTP_PARSER_STRICT is not set.
 */
module UrlChars {
  import opened Bytes

  /** LOWER: set bit 5. */
  function Lower(c: byte): byte {
    if c / 32 % 2 == 0 then c + 32 else c
  }

  predicate IsAlpha(c: byte) { 97 <= Lower(c) <= 122 }

  predicate IsAlphaNum(c: byte) { IsAlpha(c) || IsDigit(c) }

  predicate IsHex(c: byte) { IsDigit(c) || 97 <= Lower(c) <= 102 }

  predicate IsMark(c: byte) {
    || c == DASH || c == UNDERSCORE || c == DOT || c == BANG || c == TILDE
    || c == STAR || c == QUOTE || c == LPAREN || c == RPAREN
  }

  predicate IsUserinfoChar(c: byte) {
    || IsAlphaNum(c) || IsMark(c) || c == PERCENT || c == SEMICOLON || c == COLON
    || c == AMPERSAND || c == EQUALS || c == PLUS || c == DOLLAR || c == COMMA
  }

  predicate IsHostChar(c: byte) {
    IsAlphaNum(c) || c == DOT || c == DASH || c == UNDERSCORE
  }

  /** The octets accepted inside a bracketed address, before a zone. */
  predicate IsV6Char(c: byte) { IsHex(c) || c == COLON || c == DOT }

  predicate IsZoneChar(c: byte) {
    IsAlphaNum(c) || c == PERCENT || c == DOT || c == DASH || c == UNDERSCORE || c == TILDE
  }

  /** normal_url_char: one bit an octet below 128, least significant bit first. */
  const NORMAL_URL_CHAR: seq<byte> := [
    0, 2 + 16, 0, 0,
    2 + 4 + 16 + 32 + 64 + 128, 255, 255, 127,
    255, 255, 255, 255,
    255, 255, 255, 127,
    0, 0, 0, 0, 0, 0, 0, 0, 0, 0, 0, 0, 0, 0, 0, 0
  ]

  const POWERS_OF_TWO: seq<nat> := [1, 2, 4, 8, 16, 32, 64, 128]

  /** BIT_AT */
  predicate BitAt(c: byte) {
    NORMAL_URL_CHAR[c / 8] / POWERS_OF_TWO[c % 8] % 2 == 1
  }

  predicate IsUrlChar(c: byte) { BitAt(c) || c >= 128 }

  /** What the bitmap says: printable ASCII but '#' and '?', plus tab and form feed. */
  lemma UrlCharClass(c: byte)
    ensures IsUrlChar(c) <==> c >= 128 || c == HT || c == FF || (33 <= c < 127 && c != HASH && c != QUESTION)
  {
    if c >= 128 {
    } else {
      var q := c / 8;
      assert 0 <= q < 16;
      var w := NORMAL_URL_CHAR[q];
      if q == 0 || q == 2 || q == 3 {
        assert w == 0;
      } else if q == 1 {
        assert w == 18;
      } else if q == 4 {
        assert w == 246;
      } else if q == 7 || q == 15 {
        assert w == 127;
      } else {
        assert w == 255;
      }
    }
  }

  /** The octets of a host name: letters, digits, '-', '.' and '_'. */
  lemma HostCharClass(c: byte)
    ensures IsHostChar(c) <==>
            48 <= c <= 57 || 65 <= c <= 90 || 97 <= c <= 122 || c in Codes("-._")
  {
    AlphaClass(c);
    assert Codes("-._") == [45, 46, 95];
  }

  /** The octets of a userinfo. */
  lemma UserinfoCharClass(c: byte)
    ensures IsUserinfoChar(c) <==>
            48 <= c <= 57 || 65 <= c <= 90 || 97 <= c <= 122 || c in Codes("!$%&'()*+,-.:;=_~")
  {
    AlphaClass(c);
    assert Codes("!$%&'()*+,-.:;=_~") == [33, 36, 37, 38, 39, 40, 41, 42, 43, 44, 45, 46, 58, 59, 61, 95, 126];
  }

  /** The octets of a bracketed address: hexadecimal digits, ':' and '.'. */
  lemma V6CharClass(c: byte)
    ensures IsV6Char(c) <==> 48 <= c <= 57 || 65 <= c <= 70 || 97 <= c <= 102 || c in Codes(".:")
  {
    AlphaClass(c);
    assert Codes(".:") == [46, 58];
  }

  /** The octets of a zone. */
  lemma ZoneCharClass(c: byte)
    ensures IsZoneChar(c) <==>
            48 <= c <= 57 || 65 <= c <= 90 || 97 <= c <= 122 || c in Codes("%-._~")
  {
    AlphaClass(c);
    assert Codes("%-._~") == [37, 45, 46, 95, 126];
  }

  /** IS_ALPHA tests bit 5 away; that admits the letters and nothing else. */
  lemma AlphaClass(c: byte)
    ensures IsAlpha(c) <==> IsUpper(c) || IsLower(c)
  {
  }
}
