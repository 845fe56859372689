/**
  URI component encoding and decoding (include/jsfunctions.h) and
  percent_decode (include/sessionutil.h).
 */
module UriComponent {
  import opened Bytes
  import opened Options
  import opened UrlChars

  // ---------- encodeURIComponent ----------

  /** The octets encodeURIComponent copies. */
  predicate IsPlain(c: byte) {
    || IsDigit(c) || IsLower(c) || IsUpper(c)
    || c == DASH || c == UNDERSCORE || c == DOT || c == BANG || c == TILDE
    || c == STAR || c == QUOTE || c == LPAREN || c == RPAREN
  }

  /** A lower-case hexadecimal digit. */
  function HexDigit(d: int): byte
    requires 0 <= d < 16
  {
    if d <= 9 then d + 48 else d + 87
  }

  function EncodedByte(c: byte): bytes {
    if IsPlain(c) then [c]
    else if c == SPACE then [PLUS]
    else [PERCENT, HexDigit(c / 16), HexDigit(c % 16)]
  }

  function EncodedUri(s: bytes): bytes {
    if s == [] then [] else EncodedUri(s[..|s| - 1]) + EncodedByte(s[|s| - 1])
  }

  /** hexToChar, which writes its results through references. */
  method HexToChar(c: byte) returns (hex1: byte, hex2: byte)
    ensures hex1 == HexDigit(c / 16) && hex2 == HexDigit(c % 16)
  {
    hex1 := c / 16;
    hex2 := c % 16;
    hex1 := hex1 + if hex1 <= 9 then 48 else 87;
    hex2 := hex2 + if hex2 <= 9 then 48 else 87;
  }

  method EncodeURIComponent(s: bytes) returns (v: bytes)
    ensures v == EncodedUri(s)
  {
    v := [];
    for i := 0 to |s|
      invariant v == EncodedUri(s[..i])
    {
      assert s[..i + 1][..i] == s[..i];
      var c := s[i];
      if IsPlain(c) {
        v := v + [c];
      } else if c == SPACE {
        v := v + [PLUS];
      } else {
        v := v + [PERCENT];
        var d1, d2 := HexToChar(c);
        v := v + [d1];
        v := v + [d2];
      }
    }
    assert s[..|s|] == s;
  }

  // ---------- decodeURIComponent ----------

  /** The text, or the exception of std::stoi, or a read past the end of the string. */
  datatype Decoded = Text(text: bytes) | InvalidArgument | Overrun {
    function Prepend(o: bytes): Decoded {
      if Text? then Text(o + text) else this
    }
  }

  predicate IsHexDigit(c: byte) {
    IsDigit(c) || 65 <= c <= 70 || 97 <= c <= 102
  }

  /** hex_to_uint on a hexadecimal digit. */
  function HexToUint(c: byte): (v: int)
    requires IsHexDigit(c)
    ensures 0 <= v < 16
  {
    if c <= 57 then c - 48
    else if c <= 90 then c - 65 + 10
    else c - 97 + 10
  }

  datatype HexByte = NoNumber | Number(value: byte)

  /** stringToHex: std::stoi in base 16 on two characters, narrowed to a char. */
  function StringToHex(a: byte, b: byte): HexByte {
    if IsHexDigit(a) then
      if IsHexDigit(b) then Number(16 * HexToUint(a) + HexToUint(b)) else Number(HexToUint(a))
    else if !IsHexDigit(b) then NoNumber
    else if IsSpace(a) || a == PLUS then Number(HexToUint(b))
    else if a == DASH then Number((256 - HexToUint(b)) % 256)
    else NoNumber
  }

  /** The source reads two characters behind a "%": the NUL that ends the string may be one of them. */
  function DecodedUri(s: bytes): Decoded {
    if s == [] then Text([])
    else if s[0] == PERCENT then
      if |s| == 1 then Overrun
      else match StringToHex(s[1], if |s| == 2 then NUL else s[2])
        case NoNumber => InvalidArgument
        case Number(v) => if |s| == 2 then Overrun else DecodedUri(s[3..]).Prepend([v])
    else DecodedUri(s[1..]).Prepend([if s[0] == PLUS then SPACE else s[0]])
  }

  method DecodeURIComponent(s: bytes) returns (r: Decoded)
    ensures r == DecodedUri(s)
  {
    var o: bytes := [];
    var c := 0;
    while c < |s|
      invariant 0 <= c <= |s|
      invariant DecodedUri(s) == DecodedUri(s[c..]).Prepend(o)
    {
      ghost var rest := s[c..];
      if s[c] == PERCENT {
        if c + 1 == |s| {
          return Overrun;
        }
        var h := StringToHex(s[c + 1], if c + 2 == |s| then NUL else s[c + 2]);
        if h == NoNumber {
          return InvalidArgument;
        }
        if c + 2 == |s| {
          return Overrun;
        }
        PrependTwice(o, [h.value], DecodedUri(rest[3..]));
        o := o + [h.value];
        c := c + 2;
        assert rest[3..] == s[c + 1..];
      } else if s[c] == PLUS {
        PrependTwice(o, [SPACE], DecodedUri(rest[1..]));
        o := o + [SPACE];
        assert rest[1..] == s[c + 1..];
      } else {
        PrependTwice(o, [s[c]], DecodedUri(rest[1..]));
        o := o + [s[c]];
        assert rest[1..] == s[c + 1..];
      }
      c := c + 1;
    }
    return Text(o);
  }

  lemma PrependTwice(o: bytes, p: bytes, d: Decoded)
    ensures d.Prepend(p).Prepend(o) == d.Prepend(o + p)
  {
    if d.Text? {
      assert o + (p + d.text) == (o + p) + d.text;
    }
  }

  // ---------- percent_decode ----------

  function PercentDecoded(s: bytes): bytes {
    if s == [] then []
    else if StartsEscape(s) then [16 * HexToUint(s[1]) + HexToUint(s[2])] + PercentDecoded(s[3..])
    else [s[0]] + PercentDecoded(s[1..])
  }

  /** A "%" and two hexadecimal digits. */
  predicate StartsEscape(s: bytes) {
    3 <= |s| && s[0] == PERCENT && IsHexDigit(s[1]) && IsHexDigit(s[2])
  }

  /** The step of percent_decode at a position, and how far it reads. */
  lemma PercentStep(s: bytes, first: nat)
    requires first < |s|
    ensures var (w, n) := if StartsEscape(s[first..])
                          then (16 * HexToUint(s[first + 1]) + HexToUint(s[first + 2]), 3) else (s[first], 1);
            PercentDecoded(s[first..]) == [w] + PercentDecoded(s[first + n..])
  {
    var rest := s[first..];
    if StartsEscape(rest) {
      assert rest[3..] == s[first + 3..];
    } else {
      assert rest[1..] == s[first + 1..];
    }
  }

  method PercentDecode(s: bytes) returns (r: bytes)
    ensures r == PercentDecoded(s)
  {
    hide PercentDecoded;
    var result := new byte[|s|];
    var p, first := 0, 0;
    assert s[0..] == s;
    while first < |s|
      invariant 0 <= p <= first <= |s| == result.Length
      invariant result[..p] + PercentDecoded(s[first..]) == PercentDecoded(s)
    {
      ghost var before := result[..p];
      PercentStep(s, first);
      if s[first] != PERCENT {
        result[p] := s[first];
      } else if first + 1 != |s| && first + 2 != |s| && IsHexDigit(s[first + 1]) && IsHexDigit(s[first + 2]) {
        result[p] := 16 * HexToUint(s[first + 1]) + HexToUint(s[first + 2]);
        first := first + 2;
      } else {
        result[p] := s[first];
      }
      p := p + 1;
      first := first + 1;
      assert result[..p] == before + [result[p - 1]];
    }
    NothingLeft(s);
    r := result[..p];
  }

  lemma NothingLeft(s: bytes)
    ensures PercentDecoded(s[|s|..]) == []
  {
  }

  // ---------- digits, octets and numbers by themselves ----------

  /** The hexadecimal digit worth v, in either case. */
  function HexChar(v: nat, upper: bool): byte
    requires v < 16
  {
    (if upper then Codes("0123456789ABCDEF") else Codes("0123456789abcdef"))[v]
  }

  /** A digit is worth its position in "0123456789abcdef" or "0123456789ABCDEF"; the encoder writes the former. */
  lemma HexDigits(v: nat, upper: bool)
    requires v < 16
    ensures IsHexDigit(HexChar(v, upper)) && HexToUint(HexChar(v, upper)) == v
    ensures HexDigit(v) == HexChar(v, false)
    ensures HexChar(v, upper) != PERCENT && HexChar(v, upper) != PLUS
  {
    LowerDigit(v);
    UpperDigit(v);
  }

  lemma LowerDigit(v: nat)
    requires v < 16
    ensures Codes("0123456789abcdef")[v] == if v < 10 then v + 48 else v - 10 + 97
  {
    assert Codes("0123456789abcdef") == [48, 49, 50, 51, 52, 53, 54, 55, 56, 57, 97, 98, 99, 100, 101, 102];
  }

  lemma UpperDigit(v: nat)
    requires v < 16
    ensures Codes("0123456789ABCDEF")[v] == if v < 10 then v + 48 else v - 10 + 65
  {
    assert Codes("0123456789ABCDEF") == [48, 49, 50, 51, 52, 53, 54, 55, 56, 57, 65, 66, 67, 68, 69, 70];
  }

  /** There are no other digits. */
  lemma OnlyHexDigits(c: byte)
    requires IsHexDigit(c)
    ensures exists v: nat, upper :: v < 16 && c == HexChar(v, upper)
  {
    if c <= 57 {
      LowerDigit(c - 48);
      assert c == HexChar(c - 48, false);
    } else if c <= 70 {
      UpperDigit(c - 65 + 10);
      assert c == HexChar(c - 65 + 10, true);
    } else {
      LowerDigit(c - 97 + 10);
      assert c == HexChar(c - 97 + 10, false);
    }
  }

  /** What the encoder writes for an octet: itself, a "+", or a "%" and two digits. */
  lemma EncodedOctet(c: byte)
    ensures EncodedUri([c]) ==
            if 48 <= c <= 57 || 65 <= c <= 90 || 97 <= c <= 122 || c in Codes("-_.!~*'()") then [c]
            else if c == 32 then Codes("+")
            else Codes("%") + [HexChar(c / 16, false), HexChar(c % 16, false)]
  {
    hide HexDigit, HexChar;
    assert [c][..0] == [];
    assert Codes("-_.!~*'()") == [45, 95, 46, 33, 126, 42, 39, 40, 41];
    assert Codes("+") == [43] && Codes("%") == [37];
    HexDigits(c / 16, false);
    HexDigits(c % 16, false);
  }

  function HexPrefix(s: bytes): (d: bytes)
    ensures forall i | 0 <= i < |d| :: IsHexDigit(d[i])
  {
    if s != [] && IsHexDigit(s[0]) then [s[0]] + HexPrefix(s[1..]) else []
  }

  function HexNumber(d: bytes): nat
    requires forall i | 0 <= i < |d| :: IsHexDigit(d[i])
  {
    if d == [] then 0 else 16 * HexNumber(d[..|d| - 1]) + HexToUint(d[|d| - 1])
  }

  /**
    std::stoi in base 16 on two characters: spaces, a sign, digits; None where it
    throws.  The prefix "0x" alone is worth its 0.
   */
  function Stoi(s: bytes): Option<int> {
    var t := SkipSpaces(s);
    var signed := t != [] && (t[0] == DASH || t[0] == PLUS);
    var d := HexPrefix(if signed then t[1..] else t);
    if d == [] then None
    else Some(if signed && t[0] == DASH then 0 - HexNumber(d) else HexNumber(d))
  }

  lemma NumberOfDigits(a: byte, b: byte)
    ensures IsHexDigit(a) ==> HexPrefix([a]) == [a] && HexNumber([a]) == HexToUint(a)
    ensures IsHexDigit(a) && IsHexDigit(b) ==>
              HexPrefix([a, b]) == [a, b] && HexNumber([a, b]) == 16 * HexToUint(a) + HexToUint(b)
    ensures IsHexDigit(a) && !IsHexDigit(b) ==> HexPrefix([a, b]) == [a]
    ensures !IsHexDigit(a) ==> HexPrefix([a]) == [] && HexPrefix([a, b]) == []
    ensures HexPrefix([]) == []
  {
    hide IsHexDigit, HexToUint;
    assert [a, b][1..] == [b] && [b][1..] == [] && [a][1..] == [];
    assert HexPrefix([b]) == if IsHexDigit(b) then [b] else [];
    if IsHexDigit(a) {
      assert [a][..0] == [];
      if IsHexDigit(b) {
        assert [a, b][..1] == [a];
      }
    }
  }

  /** An escape is worth what stoi makes of its two characters, in eight bits. */
  lemma StringToHexIsStoi(a: byte, b: byte)
    ensures StringToHex(a, b) ==
            match Stoi([a, b])
            case None => NoNumber
            case Some(n) => Number(n % 256)
  {
    hide HexPrefix, HexNumber, HexToUint;
    NumberOfDigits(a, b);
    NumberOfDigits(b, b);
    assert [a, b][1..] == [b] && [b][1..] == [];
    assert SkipSpaces([]) == [];
    assert SkipSpaces([b]) == if IsSpace(b) then [] else [b];
    assert SkipSpaces([a, b]) == if IsSpace(a) then SkipSpaces([b]) else [a, b];
  }

  // ---------- any text, piece by piece ----------

  /** A character for itself, or an escape, each of its digits in either case. */
  datatype Piece =
    | Literal(c: byte)
    | Escape(high: nat, highUpper: bool, low: nat, lowUpper: bool)
  {
    predicate Valid() { Escape? ==> high < 16 && low < 16 }

    function Spelled(): bytes
      requires Valid()
    {
      if Literal? then [c] else Codes("%") + [HexChar(high, highUpper), HexChar(low, lowUpper)]
    }

    /** The octet it stands for, where a "+" stands for plus. */
    function Octet(plus: byte): byte
      requires Valid()
    {
      if Escape? then 16 * high + low else if c == PLUS then plus else c
    }
  }

  function Spelled(ps: seq<Piece>): bytes
    requires forall i | 0 <= i < |ps| :: ps[i].Valid()
  {
    if ps == [] then [] else ps[0].Spelled() + Spelled(ps[1..])
  }

  function Meant(ps: seq<Piece>, plus: byte): bytes
    requires forall i | 0 <= i < |ps| :: ps[i].Valid()
  {
    if ps == [] then [] else [ps[0].Octet(plus)] + Meant(ps[1..], plus)
  }

  /** One escape, however its digits are written. */
  lemma EscapeRead(p: Piece, rest: bytes)
    requires p.Escape? && p.Valid()
    ensures DecodedUri(p.Spelled() + rest) == DecodedUri(rest).Prepend([16 * p.high + p.low])
    ensures PercentDecoded(p.Spelled() + rest) == [16 * p.high + p.low] + PercentDecoded(rest)
  {
    hide HexChar, IsHexDigit, HexToUint;
    HexDigits(p.high, p.highUpper);
    HexDigits(p.low, p.lowUpper);
    assert Codes("%") == [PERCENT];
    var t := p.Spelled() + rest;
    assert t == [PERCENT, HexChar(p.high, p.highUpper), HexChar(p.low, p.lowUpper)] + rest;
    assert t[3..] == rest;
  }

  /**
    decodeURIComponent on every text whose "%" all start escapes, in upper or lower
    case, whatever follows that text: what it stands for, with "+" for a space.
   */
  lemma {:induction false} DecodePieces(ps: seq<Piece>, rest: bytes)
    requires forall i | 0 <= i < |ps| :: ps[i].Valid() && ps[i] != Literal(PERCENT)
    ensures DecodedUri(Spelled(ps) + rest) == DecodedUri(rest).Prepend(Meant(ps, SPACE))
  {
    hide DecodedUri, Piece.Spelled;
    if ps == [] {
      assert Spelled(ps) + rest == rest;
      NothingPrepended(DecodedUri(rest));
    } else {
      var p, more := ps[0], Spelled(ps[1..]) + rest;
      assert Spelled(ps) + rest == p.Spelled() + more;
      DecodePieces(ps[1..], rest);
      if p.Escape? {
        EscapeRead(p, more);
        PrependTwice([16 * p.high + p.low], Meant(ps[1..], SPACE), DecodedUri(rest));
      } else {
        LiteralRead(p.c, more);
        PrependTwice([if p.c == PLUS then SPACE else p.c], Meant(ps[1..], SPACE), DecodedUri(rest));
      }
    }
  }

  lemma NothingPrepended(d: Decoded)
    ensures d.Prepend([]) == d
  {
  }

  lemma LiteralRead(c: byte, rest: bytes)
    requires c != PERCENT
    ensures Literal(c).Spelled() == [c]
    ensures DecodedUri([c] + rest) == DecodedUri(rest).Prepend([if c == PLUS then SPACE else c])
  {
    assert ([c] + rest)[1..] == rest;
  }

  /** The first "%" that starts no escape decides: what stoi makes of the two characters behind it, or its exception. */
  lemma BrokenEscapeRead(a: byte, b: byte, rest: bytes)
    ensures DecodedUri([PERCENT, a, b] + rest) ==
            match Stoi([a, b])
            case None => InvalidArgument
            case Some(n) => DecodedUri(rest).Prepend([n % 256])
  {
    hide StringToHex, Stoi;
    StringToHexIsStoi(a, b);
    assert ([PERCENT, a, b] + rest)[3..] == rest;
  }

  /** At the end of the text the NUL behind it is read, and whatever is behind that. */
  lemma CutEscapeRead(a: byte)
    ensures DecodedUri([PERCENT]) == Overrun
    ensures DecodedUri([PERCENT, a]) == if Stoi([a, 0]) == None then InvalidArgument else Overrun
  {
    hide StringToHex, Stoi;
    StringToHexIsStoi(a, 0);
  }

  /** Every "%" that is taken for itself is one that no two hexadecimal digits follow. */
  predicate PercentReadable(ps: seq<Piece>)
    requires forall i | 0 <= i < |ps| :: ps[i].Valid()
  {
    ps != [] ==>
      && PercentReadable(ps[1..])
      && (ps[0] == Literal(PERCENT) ==>
            var more := Spelled(ps[1..]); !(|more| >= 2 && IsHexDigit(more[0]) && IsHexDigit(more[1])))
  }

  /** percent_decode on every text: escapes in upper or lower case are replaced, all else stands. */
  lemma {:induction false} PercentPieces(ps: seq<Piece>)
    requires forall i | 0 <= i < |ps| :: ps[i].Valid()
    requires PercentReadable(ps)
    ensures PercentDecoded(Spelled(ps)) == Meant(ps, PLUS)
  {
    hide PercentDecoded, IsHexDigit, Piece.Spelled;
    if ps == [] {
      NothingEncoded();
    } else {
      var p, more := ps[0], Spelled(ps[1..]);
      PercentPieces(ps[1..]);
      if p.Escape? {
        EscapeRead(p, more);
      } else {
        CharacterStands(p.c, more);
      }
    }
  }

  /** Every text can be read that way. */
  lemma {:induction false} ReadsAsPieces(s: bytes) returns (ps: seq<Piece>)
    ensures forall i | 0 <= i < |ps| :: ps[i].Valid()
    ensures PercentReadable(ps) && Spelled(ps) == s
  {
    hide IsHexDigit, HexChar, Piece.Spelled;
    if s == [] {
      ps := [];
    } else {
      var n := if StartsEscape(s) then 3 else 1;
      var rest := ReadsAsPieces(s[n..]);
      var p := Literal(s[0]);
      if n == 3 {
        OnlyHexDigits(s[1]);
        OnlyHexDigits(s[2]);
        var v, vUpper :| v < 16 && s[1] == HexChar(v, vUpper);
        var w, wUpper :| w < 16 && s[2] == HexChar(w, wUpper);
        p := Escape(v, vUpper, w, wUpper);
        EscapeSpelled(p);
        assert s == [s[0], s[1], s[2]] + s[3..];
      } else {
        CharacterSpelled(s[0]);
        assert s == [s[0]] + s[1..];
      }
      ps := [p] + rest;
      assert ps[1..] == rest;
    }
  }

  lemma EscapeSpelled(p: Piece)
    requires p.Escape? && p.Valid()
    ensures p.Spelled() == [PERCENT, HexChar(p.high, p.highUpper), HexChar(p.low, p.lowUpper)]
  {
    hide HexChar;
    assert Codes("%") == [PERCENT];
  }

  lemma CharacterSpelled(c: byte)
    ensures Literal(c).Spelled() == [c]
  {
  }

  lemma CharacterStands(c: byte, more: bytes)
    requires c == PERCENT ==> !(|more| >= 2 && IsHexDigit(more[0]) && IsHexDigit(more[1]))
    ensures Literal(c).Spelled() == [c]
    ensures PercentDecoded([c] + more) == [c] + PercentDecoded(more)
  {
    hide IsHexDigit;
    assert ([c] + more)[1..] == more;
  }

  // ---------- the codecs against each other ----------

  lemma {:induction false} EncodedAppend(a: bytes, b: bytes)
    ensures EncodedUri(a + b) == EncodedUri(a) + EncodedUri(b)
  {
    if b == [] {
      assert a + b == a;
    } else {
      var n := |b| - 1;
      assert (a + b)[..|a + b| - 1] == a + b[..n];
      EncodedAppend(a, b[..n]);
    }
  }

  lemma EncodedHead(s: bytes)
    requires s != []
    ensures EncodedUri(s) == EncodedByte(s[0]) + EncodedUri(s[1..])
  {
    assert s == [s[0]] + s[1..];
    EncodedAppend([s[0]], s[1..]);
    assert EncodedUri([s[0]]) == EncodedByte(s[0]) by { assert [s[0]][..0] == []; }
  }

  lemma HexDigitValue(d: int)
    requires 0 <= d < 16
    ensures IsHexDigit(HexDigit(d)) && HexToUint(HexDigit(d)) == d
  {
  }

  /** An encoded octet decodes to the octet, whatever follows it. */
  lemma DecodeByte(c: byte, rest: bytes)
    ensures DecodedUri(EncodedByte(c) + rest) == DecodedUri(rest).Prepend([c])
    ensures PercentDecoded(EncodedByte(c) + rest) == [if c == SPACE then PLUS else c] + PercentDecoded(rest)
  {
    hide IsHexDigit, HexDigit, HexToUint;
    var e := EncodedByte(c);
    assert (e + rest)[|e|..] == rest;
    if |e| == 3 {
      HexDigitValue(c / 16);
      HexDigitValue(c % 16);
      assert e + rest == [PERCENT, HexDigit(c / 16), HexDigit(c % 16)] + rest;
    } else {
      assert (e + rest)[0] == e[0] != PERCENT;
    }
  }

  lemma Prepended(c: byte, s: bytes)
    ensures Text(s).Prepend([c]) == Text([c] + s)
  {
  }

  lemma NothingEncoded()
    ensures EncodedUri([]) == [] && DecodedUri([]) == Text([]) && PercentDecoded([]) == []
  {
  }

  /** decodeURIComponent undoes encodeURIComponent, for every octet string. */
  lemma {:induction false} DecodeEncode(s: bytes)
    ensures DecodedUri(EncodedUri(s)) == Text(s)
  {
    hide EncodedUri, EncodedByte, DecodedUri, Decoded.Prepend;
    NothingEncoded();
    if s != [] {
      EncodedHead(s);
      DecodeEncode(s[1..]);
      DecodeByte(s[0], EncodedUri(s[1..]));
      Prepended(s[0], s[1..]);
      assert s == [s[0]] + s[1..];
    }
  }

  function SpacesToPlus(s: bytes): bytes {
    seq(|s|, i requires 0 <= i < |s| => if s[i] == SPACE then PLUS else s[i])
  }

  /** percent_decode undoes it up to spaces, which stay "+". */
  lemma {:induction false} PercentDecodeEncode(s: bytes)
    ensures PercentDecoded(EncodedUri(s)) == SpacesToPlus(s)
  {
    hide EncodedUri, EncodedByte, PercentDecoded;
    NothingEncoded();
    if s != [] {
      EncodedHead(s);
      PercentDecodeEncode(s[1..]);
      DecodeByte(s[0], EncodedUri(s[1..]));
      assert SpacesToPlus(s) == [if s[0] == SPACE then PLUS else s[0]] + SpacesToPlus(s[1..]);
    }
  }

  /** The encoder writes URL octets, so its output can stand in a query. */
  lemma {:induction false} EncodedIsUrl(s: bytes)
    ensures forall i | 0 <= i < |EncodedUri(s)| :: IsUrlChar(EncodedUri(s)[i])
  {
    if s != [] {
      EncodedIsUrl(s[..|s| - 1]);
      var e := EncodedByte(s[|s| - 1]);
      forall i | 0 <= i < |e|
        ensures IsUrlChar(e[i])
      {
        UrlCharClass(e[i]);
      }
    }
  }

  // ---------- percent_decode on arbitrary input ----------

  /** The escapes percent_decode replaces, left to right. */
  function EscapeCount(s: bytes): nat {
    if s == [] then 0
    else if StartsEscape(s) then 1 + EscapeCount(s[3..])
    else EscapeCount(s[1..])
  }

  lemma {:induction false} PercentDecodedLength(s: bytes)
    ensures |PercentDecoded(s)| + 2 * EscapeCount(s) == |s|
  {
    if s != [] {
      if StartsEscape(s) {
        PercentDecodedLength(s[3..]);
      } else {
        PercentDecodedLength(s[1..]);
      }
    }
  }

  /** percent_decode changes a string exactly when a valid escape stands somewhere in it. */
  lemma {:induction false} PercentDecodeChanges(s: bytes)
    ensures PercentDecoded(s) == s <==> forall i | 0 <= i < |s| :: !StartsEscape(s[i..])
  {
    if s != [] {
      if StartsEscape(s) {
        PercentDecodedLength(s);
        assert StartsEscape(s[0..]);
      } else {
        PercentDecodeChanges(s[1..]);
        assert s == [s[0]] + s[1..];
        forall i | 0 <= i < |s| - 1
          ensures s[1..][i..] == s[i + 1..]
        {
        }
        if PercentDecoded(s) == s {
          assert PercentDecoded(s[1..]) == PercentDecoded(s)[1..] == s[1..];
          forall i | 0 <= i < |s|
            ensures !StartsEscape(s[i..])
          {
            if i == 0 {
              assert s[0..] == s;
            } else {
              assert s[1..][i - 1..] == s[i..];
            }
          }
        }
        if forall i | 0 <= i < |s| :: !StartsEscape(s[i..]) {
          forall i | 0 <= i < |s[1..]|
            ensures !StartsEscape(s[1..][i..])
          {
            assert s[1..][i..] == s[i + 1..];
          }
        }
      }
    }
  }
}
