/**
  Base64 as include/jsfunctions.h writes and reads it, against section 4 of
  RFC 4648, and its two users: Basic credentials and 48-bit hashes.  Shifts and
  masks on octets are written as divisions and remainders; every "or" in the
  source joins disjoint bits and is written as a sum.
 */
module Base64 {
  import opened Bytes

  // ---------- the alphabet ----------

  /** Entry i of uriCharset. */
  function Symbol(i: int): byte
    requires 0 <= i < 64
  {
    if i < 26 then i + 65
    else if i < 52 then i - 26 + 97
    else if i < 62 then i - 52 + 48
    else if i == 62 then PLUS
    else SLASH
  }

  /** Entry c of the table that decode builds: the symbol's index, and 0 for everything else. */
  function IndexOf(c: byte): (i: int)
    ensures 0 <= i < 64
  {
    if IsUpper(c) then c - 65
    else if IsLower(c) then c - 97 + 26
    else if IsDigit(c) then c - 48 + 52
    else if c == PLUS then 62
    else if c == SLASH then 63
    else 0
  }

  lemma SymbolIndex(i: int)
    requires 0 <= i < 64
    ensures IndexOf(Symbol(i)) == i && Symbol(i) != EQUALS && Symbol(i) < 128
  {
  }

  // ---------- section 4 of RFC 4648 ----------

  /** The 24-bit group of three octets. */
  function Word(a: int, b: int, c: int): int { 0x1_0000 * a + 0x100 * b + c }

  /** The four symbols of a 24-bit group. */
  function Group(v: int): bytes
    requires 0 <= v < 0x100_0000
  {
    [Symbol(v / 0x4_0000), Symbol(v / 0x1000 % 64), Symbol(v / 64 % 64), Symbol(v % 64)]
  }

  /** A final quantum of one or two octets is padded with zero bits, and the output with "=". */
  function Rfc4648(x: bytes): bytes {
    if x == [] then []
    else if |x| == 1 then Group(Word(x[0], 0, 0))[..2] + [EQUALS, EQUALS]
    else if |x| == 2 then Group(Word(x[0], x[1], 0))[..3] + [EQUALS]
    else Group(Word(x[0], x[1], x[2])) + Rfc4648(x[3..])
  }

  // ---------- encodeFromArray ----------

  /** getVectorValue: 0 past the end. */
  function At(x: bytes, i: nat): byte {
    if i < |x| then x[i] else 0
  }

  /** The four symbols the loop appends for three octets. */
  function Quad(a: byte, b: byte, c: byte): bytes {
    [Symbol(a / 4), Symbol(a % 4 * 16 + b / 16), Symbol(b % 16 * 4 + c / 64), Symbol(c % 64)]
  }

  lemma QuadIsGroup(a: byte, b: byte, c: byte)
    ensures Quad(a, b, c) == Group(Word(a, b, c))
  {
    hide Symbol;
    var (p, q, r, s, t, w) := (a / 4, a % 4, b / 16, b % 16, c / 64, c % 64);
    var v := Word(a, b, c);
    Divide(v, 0x4_0000, p, 0x1_0000 * q + 0x1000 * r + 0x100 * s + 64 * t + w);
    Divide(v, 0x1000, 64 * p + (q * 16 + r), 0x100 * s + 64 * t + w);
    Divide(64 * p + (q * 16 + r), 64, p, q * 16 + r);
    Divide(v, 64, 64 * (64 * p + (q * 16 + r)) + (s * 4 + t), w);
    Divide(64 * (64 * p + (q * 16 + r)) + (s * 4 + t), 64, 64 * p + (q * 16 + r), s * 4 + t);
  }

  lemma Divide(v: int, d: int, k: int, r: int)
    requires v == d * k + r && 0 <= r < d
    ensures v / d == k && v % d == r
  {
    var e := v / d - k;
    assert d * e == r - v % d;
    assert e >= 1 ==> d * e >= d;
    assert e <= -1 ==> d * e <= -d;
  }

  /** The text before the padding is fixed up: whole groups, missing octets read as 0. */
  function Quads(x: bytes): bytes {
    if x == [] then []
    else if |x| < 3 then Quad(x[0], At(x, 1), 0)
    else Quad(x[0], x[1], x[2]) + Quads(x[3..])
  }

  /** What the loop has yet to append. */
  function Remaining(x: bytes, n: nat): bytes {
    if n < |x| then Quads(x[n..]) else []
  }

  lemma QuadsStep(x: bytes, n: nat)
    requires n < |x|
    ensures Remaining(x, n) == Quad(At(x, n), At(x, n + 1), At(x, n + 2)) + Remaining(x, n + 3)
  {
    hide Quad;
    var rest := x[n..];
    assert At(x, n) == At(rest, 0) && At(x, n + 1) == At(rest, 1) && At(x, n + 2) == At(rest, 2);
    if |rest| >= 3 {
      assert rest[3..] == x[n + 3..];
      assert rest[3..] == [] ==> Quads(rest[3..]) == [];
    }
  }

  lemma AllRemaining(x: bytes)
    ensures Remaining(x, 0) == Quads(x)
  {
    assert x[0..] == x;
  }

  lemma NothingRemains(x: bytes, n: nat)
    requires n >= |x|
    ensures Remaining(x, n) == []
  {
  }

  method EncodeFromArray(input: bytes) returns (out: bytes)
    ensures out == Rfc4648(input)
  {
    hide Quads, Rfc4648, Symbol, At, Quad, Remaining;
    out := [];
    var n := 0;
    AllRemaining(input);
    while n < |input|
      invariant 0 <= n
      invariant out + Remaining(input, n) == Quads(input)
    {
      ghost var out0 := out;
      QuadsStep(input, n);
      out := out + [Symbol(At(input, n) / 4)];
      out := out + [Symbol(At(input, n) % 4 * 16 + At(input, n + 1) / 16)];
      out := out + [Symbol(At(input, n + 1) % 16 * 4 + At(input, n + 2) / 64)];
      out := out + [Symbol(At(input, n + 2) % 64)];
      FourMore(out0, At(input, n), At(input, n + 1), At(input, n + 2), Remaining(input, n + 3));
      n := n + 3;
    }
    NothingRemains(input, n);
    assert out + [] == out;
    QuadsPadded(input);
    if |input| % 3 == 2 {
      out := out[..|out| - 1] + [EQUALS];
    } else if |input| % 3 == 1 {
      out := out[..|out| - 2] + [EQUALS, EQUALS];
    }
  }

  lemma FourMore(out: bytes, a: byte, b: byte, c: byte, rest: bytes)
    ensures out + [Symbol(a / 4)] + [Symbol(a % 4 * 16 + b / 16)] + [Symbol(b % 16 * 4 + c / 64)] + [Symbol(c % 64)] + rest
         == out + (Quad(a, b, c) + rest)
  {
    hide Symbol;
  }

  /** What overwriting the last symbols makes of the text of x octets. */
  function Patched(t: bytes, x: nat): bytes
    requires x % 3 != 0 ==> |t| >= 2
  {
    if x % 3 == 2 then t[..|t| - 1] + [EQUALS]
    else if x % 3 == 1 then t[..|t| - 2] + [EQUALS, EQUALS]
    else t
  }

  lemma PatchedBehind(q: bytes, t: bytes, x: nat)
    requires x % 3 != 0 ==> |t| >= 2
    ensures Patched(q + t, x + 3) == q + Patched(t, x)
  {
  }

  lemma QuadsCons(x: bytes)
    requires |x| >= 3
    ensures Quads(x) == Quad(x[0], x[1], x[2]) + Quads(x[3..])
  {
    hide Quad;
  }

  lemma LastQuad(x: bytes)
    requires 1 <= |x| <= 2
    ensures |Quads(x)| == 4
    ensures Rfc4648(x) == Patched(Quads(x), |x|)
  {
    hide Group, Quad, Word;
    QuadIsGroup(x[0], At(x, 1), 0);
    QuadLength(x[0], At(x, 1), 0);
  }

  /** Overwriting the symbols of missing octets gives the standard's padding. */
  lemma {:induction false} QuadsPadded(x: bytes)
    ensures x != [] ==> |Quads(x)| >= 4
    ensures Rfc4648(x) == Patched(Quads(x), |x|)
  {
    hide Quads, Rfc4648, Quad, Group, Word, Patched;
    if x == [] {
      NoText();
      AllRemaining([]);
      NothingRemains([], 0);
      NothingPatched();
    } else if |x| < 3 {
      LastQuad(x);
    } else {
      QuadsPadded(x[3..]);
      QuadsCons(x);
      FirstGroup(x);
      QuadIsGroup(x[0], x[1], x[2]);
      QuadLength(x[0], x[1], x[2]);
      PatchedBehind(Quad(x[0], x[1], x[2]), Quads(x[3..]), |x| - 3);
    }
  }

  lemma NothingPatched()
    ensures Patched([], 0) == []
  {
  }

  lemma QuadLength(a: byte, b: byte, c: byte)
    ensures |Quad(a, b, c)| == 4
  {
  }

  // ---------- decode ----------

  datatype Decoded = OutOfRange | Octets(octets: bytes)

  /** Four table entries make the 24-bit group of three octets. */
  lemma TripleIsWord(i: int, r: int, o: int, a: int)
    requires 0 <= i < 64 && 0 <= r < 64 && 0 <= o < 64 && 0 <= a < 64
    ensures var t := Triple(i, r, o, a);
            |t| == 3 && Word(t[0], t[1], t[2]) == 0x4_0000 * i + 0x1000 * r + 64 * o + a
  {
  }

  /** Three octets from four table entries. */
  function Triple(i: int, r: int, o: int, a: int): bytes
    requires 0 <= i < 64 && 0 <= r < 64 && 0 <= o < 64 && 0 <= a < 64
  {
    [i * 4 + r / 16, r % 16 * 16 + o / 4, o % 4 * 64 + a]
  }

  function Triples(s: bytes): bytes
    requires |s| % 4 == 0
  {
    if s == [] then []
    else Triple(IndexOf(s[0]), IndexOf(s[1]), IndexOf(s[2]), IndexOf(s[3])) + Triples(s[4..])
  }

  predicate Ascii(s: bytes) { forall i | 0 <= i < |s| :: s[i] < 128 }

  /**
    decode on a text that is not empty: at() throws on a text whose length is no
    multiple of 4 and on octets from 128 up, which are negative characters.
    Only a "==" at the end shortens the result.
   */
  function DecodedText(s: bytes): Decoded
    requires s != []
  {
    if |s| % 4 != 0 || !Ascii(s) then OutOfRange
    else
      var d := Triples(s);
      TriplesLength(s);
      Octets(if s[|s| - 1] == EQUALS && s[|s| - 2] == EQUALS then d[..|d| - 2] else d)
  }

  lemma {:induction false} TriplesLength(s: bytes)
    requires |s| % 4 == 0
    ensures |Triples(s)| == |s| / 4 * 3
  {
    if s != [] {
      TriplesLength(s[4..]);
    }
  }

  /** The table of decode: zero, then one entry a symbol. */
  method BuildTable() returns (n: array<int>)
    ensures fresh(n) && n.Length == 256
    ensures forall c: byte :: n[c] == IndexOf(c) && 0 <= n[c] < 64
  {
    n := new int[256](_ => 0);
    for i := 0 to 64
      invariant forall c: byte :: n[c] == if IndexOf(c) < i then IndexOf(c) else 0
    {
      n[Symbol(i)] := i;
      forall c: byte
        ensures n[c] == if IndexOf(c) < i + 1 then IndexOf(c) else 0
      {
        SymbolIndex(i);
        OnlySymbol(c, i);
      }
    }
  }

  lemma OnlySymbol(c: byte, i: int)
    requires 0 <= i < 64
    ensures IndexOf(c) == i && i != 0 ==> c == Symbol(i)
  {
  }

  method Decode(uri: bytes) returns (r: Decoded)
    requires uri != []
    ensures r == DecodedText(uri)
  {
    hide Triples, Triple, IndexOf, Ascii, DecodedText;
    var n := BuildTable();
    var d: bytes := [];
    NoTriples();
    AsciiGrows([], []);
    assert uri[..0] == [];
    var t := 0;
    while t < |uri|
      invariant 0 <= t <= |uri| && t % 4 == 0
      invariant Ascii(uri[..t])
      invariant d == Triples(uri[..t])
      invariant forall c: byte :: n[c] == IndexOf(c) && 0 <= n[c] < 64
    {
      ghost var d0 := d;
      if |uri| < t + 4 {
        Unreadable(uri, 0);
        return OutOfRange;
      }
      if uri[t] >= 128 || uri[t + 1] >= 128 || uri[t + 2] >= 128 || uri[t + 3] >= 128 {
        Unreadable(uri, if uri[t] >= 128 then t else if uri[t + 1] >= 128 then t + 1
                        else if uri[t + 2] >= 128 then t + 2 else t + 3);
        return OutOfRange;
      }
      var i, r', o, a := n[uri[t]], n[uri[t + 1]], n[uri[t + 2]], n[uri[t + 3]];
      DecodeStep(uri, t);
      d := d + [i * 4 + r' / 16];
      d := d + [r' % 16 * 16 + o / 4];
      d := d + [o % 4 * 64 + a % 64];
      ThreeMore(d0, i, r', o, a);
      t := t + 4;
    }
    assert uri[..t] == uri;
    Readable(uri);
    if uri[|uri| - 1] == EQUALS && uri[|uri| - 2] == EQUALS {
      d := d[..|d| - 2];
    }
    return Octets(d);
  }

  lemma DecodeStep(s: bytes, t: nat)
    requires t % 4 == 0 && t + 4 <= |s| && Ascii(s[..t])
    requires s[t] < 128 && s[t + 1] < 128 && s[t + 2] < 128 && s[t + 3] < 128
    ensures Ascii(s[..t + 4])
    ensures Triples(s[..t + 4]) ==
            Triples(s[..t]) + Triple(IndexOf(s[t]), IndexOf(s[t + 1]), IndexOf(s[t + 2]), IndexOf(s[t + 3]))
  {
    hide Triples, Triple, IndexOf, Ascii;
    AsciiGrows(s[..t], s[t..t + 4]);
    TriplesAppend(s[..t], s[t..t + 4]);
    assert s[..t + 4] == s[..t] + s[t..t + 4];
  }

  lemma ThreeMore(d: bytes, i: int, r: int, o: int, a: int)
    requires 0 <= i < 64 && 0 <= r < 64 && 0 <= o < 64 && 0 <= a < 64
    ensures d + [i * 4 + r / 16] + [r % 16 * 16 + o / 4] + [o % 4 * 64 + a % 64] == d + Triple(i, r, o, a)
  {
  }

  lemma AsciiGrows(s: bytes, q: bytes)
    ensures Ascii([])
    ensures Ascii(s) && |q| == 4 && q[0] < 128 && q[1] < 128 && q[2] < 128 && q[3] < 128 ==> Ascii(s + q)
  {
  }

  /** Where at() throws. */
  lemma Unreadable(s: bytes, i: nat)
    requires i < |s| && (|s| % 4 != 0 || s[i] >= 128)
    ensures DecodedText(s) == OutOfRange
  {
  }

  lemma Readable(s: bytes)
    requires s != [] && |s| % 4 == 0 && Ascii(s)
    ensures |Triples(s)| >= 3
    ensures DecodedText(s) ==
            Octets(if s[|s| - 1] == EQUALS && s[|s| - 2] == EQUALS then Triples(s)[..|Triples(s)| - 2] else Triples(s))
  {
    TriplesLength(s);
  }

  /** It throws exactly on lengths that are no multiple of 4 and on octets from 128 up. */
  lemma ThrowsExactly(s: bytes)
    requires s != []
    ensures DecodedText(s) == OutOfRange <==> |s| % 4 != 0 || exists i | 0 <= i < |s| :: s[i] >= 128
  {
    hide Triples;
  }

  lemma NoTriples()
    ensures Triples([]) == []
  {
  }

  lemma {:induction false} TriplesAppend(s: bytes, q: bytes)
    requires |s| % 4 == 0 && |q| == 4
    ensures |s + q| % 4 == 0
    ensures Triples(s + q) ==
            Triples(s) + Triple(IndexOf(q[0]), IndexOf(q[1]), IndexOf(q[2]), IndexOf(q[3]))
  {
    hide Triple, IndexOf, Triples;
    NoTriples();
    if s == [] {
      assert s + q == q + [];
      TriplesCons(q, []);
    } else {
      var (first, rest) := (s[..4], s[4..]);
      assert s == first + rest && s + q == first + (rest + q);
      TriplesAppend(rest, q);
      TriplesCons(first, rest);
      TriplesCons(first, rest + q);
    }
  }

  // ---------- one against the other ----------

  lemma TripleOfQuad(a: byte, b: byte, c: byte)
    ensures var q := Quad(a, b, c);
            |q| == 4 && Triple(IndexOf(q[0]), IndexOf(q[1]), IndexOf(q[2]), IndexOf(q[3])) == [a, b, c]
  {
    hide Symbol, IndexOf;
    var (p, q, r, s, t, w) := (a / 4, a % 4, b / 16, b % 16, c / 64, c % 64);
    SymbolIndex(p);
    SymbolIndex(q * 16 + r);
    SymbolIndex(s * 4 + t);
    SymbolIndex(w);
    Divide(q * 16 + r, 16, q, r);
    Divide(s * 4 + t, 4, s, t);
  }

  /** A missing octet's symbol is "A" or starts the padding; either way it reads as zero bits. */
  lemma TripleOfPadded(a: byte, b: byte)
    ensures var q := Group(Word(a, b, 0))[..3] + [EQUALS];
            |q| == 4 && Triple(IndexOf(q[0]), IndexOf(q[1]), IndexOf(q[2]), IndexOf(q[3])) == [a, b, 0]
    ensures var q := Group(Word(a, 0, 0))[..2] + [EQUALS, EQUALS];
            |q| == 4 && Triple(IndexOf(q[0]), IndexOf(q[1]), IndexOf(q[2]), IndexOf(q[3])) == [a, 0, 0]
  {
    QuadIsGroup(a, b, 0);
    QuadIsGroup(a, 0, 0);
    TripleOfQuad(a, b, 0);
    TripleOfQuad(a, 0, 0);
    ZeroSymbols();
    hide Symbol, IndexOf, Group, Triple;
    assert Quad(a, b, 0)[3] == Symbol(0);
    assert Quad(a, 0, 0)[2] == Symbol(0) && Quad(a, 0, 0)[3] == Symbol(0);
  }

  lemma ZeroSymbols()
    ensures IndexOf(EQUALS) == 0 == IndexOf(Symbol(0))
  {
  }

  /** The octets back, followed by a zero for each octet missing in the last group. */
  lemma {:induction false} TriplesOfText(x: bytes)
    ensures |Rfc4648(x)| % 4 == 0
    ensures Triples(Rfc4648(x)) == x + (if |x| % 3 == 1 then [0, 0] else if |x| % 3 == 2 then [0] else [])
  {
    hide Rfc4648, Triples;
    if |x| >= 3 {
      TriplesOfText(x[3..]);
      FullGroup(x);
      assert x == x[..3] + x[3..];
    } else if x != [] {
      LastGroup(x);
    } else {
      NoTriples();
      NoText();
    }
  }

  lemma NoText()
    ensures Rfc4648([]) == []
  {
  }

  lemma LastGroup(x: bytes)
    requires 1 <= |x| <= 2
    ensures |Rfc4648(x)| == 4
    ensures Triples(Rfc4648(x)) == x + (if |x| == 1 then [0, 0] else [0])
  {
    hide Group, Quad, Triple, IndexOf, Word;
    TripleOfPadded(x[0], if |x| == 2 then x[1] else 0);
    OneQuad(Rfc4648(x));
  }

  lemma OneQuad(q: bytes)
    requires |q| == 4
    ensures Triples(q) == Triple(IndexOf(q[0]), IndexOf(q[1]), IndexOf(q[2]), IndexOf(q[3]))
  {
    hide Triple, IndexOf;
    assert q[4..] == [];
  }

  lemma FirstGroup(x: bytes)
    requires |x| >= 3
    ensures Rfc4648(x) == Group(Word(x[0], x[1], x[2])) + Rfc4648(x[3..])
  {
    hide Group, Word;
  }

  lemma TriplesCons(q: bytes, rest: bytes)
    requires |q| == 4
    ensures |rest| % 4 == 0 ==>
              && |q + rest| % 4 == 0
              && Triples(q + rest) == Triple(IndexOf(q[0]), IndexOf(q[1]), IndexOf(q[2]), IndexOf(q[3])) + Triples(rest)
  {
    hide Triple, IndexOf;
    assert (q + rest)[4..] == rest;
  }

  lemma FullGroup(x: bytes)
    requires |x| >= 3
    ensures |Rfc4648(x[3..])| % 4 == 0 ==>
              |Rfc4648(x)| % 4 == 0 && Triples(Rfc4648(x)) == x[..3] + Triples(Rfc4648(x[3..]))
  {
    hide Group, Quad, Triple, IndexOf;
    var (q, rest) := (Quad(x[0], x[1], x[2]), Rfc4648(x[3..]));
    QuadIsGroup(x[0], x[1], x[2]);
    TripleOfQuad(x[0], x[1], x[2]);
    FirstGroup(x);
    hide Rfc4648;
    TriplesCons(q, rest);
    assert x[..3] == [x[0], x[1], x[2]];
  }

  /** The text is ASCII and its last two characters show how many octets the last group had. */
  lemma {:induction false} TextShape(x: bytes)
    ensures Ascii(Rfc4648(x))
    ensures |Rfc4648(x)| == (|x| + 2) / 3 * 4
    ensures x != [] ==>
              var s := Rfc4648(x);
              && (s[|s| - 1] == EQUALS <==> |x| % 3 != 0)
              && (s[|s| - 2] == EQUALS <==> |x| % 3 == 1)
  {
    hide Group;
    if |x| >= 3 {
      TextShape(x[3..]);
      GroupShape(Word(x[0], x[1], x[2]));
      assert x[3..] == [] ==> Rfc4648(x) == Group(Word(x[0], x[1], x[2]));
    } else if |x| == 2 {
      GroupShape(Word(x[0], x[1], 0));
    } else if |x| == 1 {
      GroupShape(Word(x[0], 0, 0));
    }
  }

  lemma GroupShape(v: int)
    requires 0 <= v < 0x100_0000
    ensures |Group(v)| == 4 && Ascii(Group(v)) && EQUALS !in Group(v)
  {
    hide Symbol;
    SymbolIndex(v / 0x4_0000);
    SymbolIndex(v / 0x1000 % 64);
    SymbolIndex(v / 64 % 64);
    SymbolIndex(v % 64);
  }

  /** decode after encodeFromArray: one zero octet too many when the length is 2 modulo 3. */
  lemma DecodeEncode(x: bytes)
    requires x != []
    ensures Rfc4648(x) != []
    ensures DecodedText(Rfc4648(x)) == Octets(if |x| % 3 == 2 then x + [0] else x)
  {
    hide Rfc4648, Triples;
    TextShape(x);
    TriplesOfText(x);
    TriplesLength(Rfc4648(x));
    if |x| % 3 == 1 {
      assert (x + [0, 0])[..|x|] == x;
    }
  }

  /** decode undoes encodeFromArray exactly on lengths that are not 2 modulo 3. */
  lemma DecodeEncodeExactly(x: bytes)
    requires x != []
    ensures Rfc4648(x) != []
    ensures DecodedText(Rfc4648(x)) == Octets(x) <==> |x| % 3 != 2
  {
    DecodeEncode(x);
    assert |x + [0]| != |x|;
  }

  /** No two octet strings have the same text. */
  lemma Injective(x: bytes, y: bytes)
    requires Rfc4648(x) == Rfc4648(y)
    ensures x == y
  {
    hide Rfc4648, Triples;
    TextShape(x);
    TextShape(y);
    TriplesOfText(x);
    TriplesOfText(y);
    if x != [] && y != [] {
      var tail := if |x| % 3 == 1 then [0, 0] else if |x| % 3 == 2 then [0] else [];
      assert x + tail == y + tail;
      assert x == (x + tail)[..|x|];
      assert y == (y + tail)[..|y|];
    }
  }

  // ---------- Basic credentials ----------

  /** "Basic " */
  const BASIC: bytes := [66, 97, 115, 105, 99, 32]

  lemma Literals()
    ensures BASIC == Codes("Basic ") && [COLON] == Codes(":")
  {
  }

  /** The header value that open sets from a user and a password. */
  method BasicCredential(user: bytes, password: bytes) returns (value: bytes)
    ensures value == Codes("Basic ") + Rfc4648(user + Codes(":") + password)
  {
    var buffer := new byte[|user| + |password| + 1];
    var buffIt := 0;
    hide Rfc4648;
    var _ := CopyN(user, buffer, buffIt);
    buffIt := buffIt + |user|;
    assert buffer[..buffIt] == user;
    buffer[buffIt] := COLON;
    buffIt := buffIt + 1;
    ghost var head := user + [COLON];
    assert buffer[..buffIt] == head;
    if buffIt != buffer.Length {
      var _ := CopyN(password, buffer, buffIt);
    }
    assert buffer[..buffIt] == head;
    assert buffer[buffIt..] == password;
    assert buffer[..] == head + password;
    var text := EncodeFromArray(buffer[..]);
    value := BASIC + text;
    Literals();
  }

  /** A credential determines the user and the password of every user without a colon. */
  lemma CredentialDetermines(user: bytes, password: bytes, user': bytes, password': bytes)
    requires COLON !in user && COLON !in user'
    requires Codes("Basic ") + Rfc4648(user + Codes(":") + password)
          == Codes("Basic ") + Rfc4648(user' + Codes(":") + password')
    ensures user == user' && password == password'
  {
    hide Rfc4648, Codes;
    Literals();
    var (x, y) := (user + [COLON] + password, user' + [COLON] + password');
    assert Rfc4648(x) == (BASIC + Rfc4648(x))[|BASIC|..];
    assert Rfc4648(y) == (BASIC + Rfc4648(y))[|BASIC|..];
    Injective(x, y);
    FirstColon(user, password, user', password');
  }

  lemma FirstColon(user: bytes, password: bytes, user': bytes, password': bytes)
    requires COLON !in user && COLON !in user'
    requires user + [COLON] + password == user' + [COLON] + password'
    ensures user == user' && password == password'
  {
    var x := user + [COLON] + password;
    ColonAt(user, password);
    ColonAt(user', password');
    assert user == x[..|user|] && user' == x[..|user'|];
    assert password == x[|user| + 1..] && password' == x[|user'| + 1..];
  }

  lemma ColonAt(user: bytes, password: bytes)
    requires COLON !in user
    ensures var x := user + [COLON] + password;
            x[|user|] == COLON && forall i | 0 <= i < |user| :: x[i] != COLON
  {
    var x := user + [COLON] + password;
    assert forall i | 0 <= i < |user| :: x[i] == user[i] && user[i] in user;
  }

  // ---------- 48-bit hashes ----------

  function Power256(n: nat): int {
    if n == 0 then 1 else 256 * Power256(n - 1)
  }

  /** The six octets of a hash, most significant first. */
  function HashOctets(hash: nat): bytes {
    [hash / 0x100_0000_0000 % 256, hash / 0x1_0000_0000 % 256, hash / 0x100_0000 % 256,
     hash / 0x1_0000 % 256, hash / 0x100 % 256, hash % 256]
  }

  function BigEndian(x: bytes): nat {
    if x == [] then 0 else 256 * BigEndian(x[..|x| - 1]) + x[|x| - 1]
  }

  /** encode: the divisions by powers of 256 are exact in floating point for these integers. */
  method Encode(hash: nat) returns (text: bytes)
    requires hash < 0x1_0000_0000_0000
    ensures text == Rfc4648(HashOctets(hash))
  {
    hide HashOctets, Power256;
    var randomNumbers: bytes := [0, 0, 0, 0, 0, 0];
    HashOctet(hash, 0);
    for n := 0 to 6
      invariant |randomNumbers| == 6
      invariant randomNumbers[..n] == HashOctets(hash)[..n]
    {
      HashOctet(hash, n);
      var rn := hash / Power256(5 - n);
      randomNumbers := randomNumbers[n := rn % 256];
    }
    assert randomNumbers == HashOctets(hash);
    text := EncodeFromArray(randomNumbers);
  }

  lemma PowersOf256()
    ensures Power256(0) == 1 && Power256(1) == 0x100 && Power256(2) == 0x1_0000
    ensures Power256(3) == 0x100_0000 && Power256(4) == 0x1_0000_0000 && Power256(5) == 0x100_0000_0000
  {
  }

  lemma HashOctet(hash: nat, n: nat)
    requires n < 6
    ensures |HashOctets(hash)| == 6
    ensures Power256(5 - n) > 0 && HashOctets(hash)[n] == hash / Power256(5 - n) % 256
  {
    PowersOf256();
  }

  lemma Scale(d: nat, q: int, s: int)
    requires 0 <= s <= 255
    ensures d * (256 * q + s) == (256 * d) * q + d * s
    ensures 0 <= d * s <= 255 * d
  {
    assert d * (255 - s) >= 0;
  }

  lemma DivideTwice(v: nat, d: nat)
    requires d > 0
    ensures v / (256 * d) == v / d / 256
  {
    var (w, m) := (v / d, v % d);
    var (q, s) := (w / 256, w % 256);
    Scale(d, q, s);
    Divide(v, 256 * d, q, d * s + m);
  }

  lemma BigEndianStep(x: bytes, v: nat, c: byte)
    requires BigEndian(x) == v
    ensures BigEndian(x + [c]) == 256 * v + c
  {
    assert (x + [c])[..|x|] == x;
  }

  /** The octets of a hash below 2^48 are worth the hash. */
  lemma HashValue(hash: nat)
    requires hash < 0x1_0000_0000_0000
    ensures BigEndian(HashOctets(hash)) == hash
  {
    hide BigEndian;
    var x := HashOctets(hash);
    NoOctets();
    hide HashOctets;
    HashDigits(hash);
    BigEndianStep([], 0, x[0]);
    assert [] + [x[0]] == x[..1];
    BigEndianStep(x[..1], hash / 0x100_0000_0000, x[1]);
    assert x[..1] + [x[1]] == x[..2];
    BigEndianStep(x[..2], hash / 0x1_0000_0000, x[2]);
    assert x[..2] + [x[2]] == x[..3];
    BigEndianStep(x[..3], hash / 0x100_0000, x[3]);
    assert x[..3] + [x[3]] == x[..4];
    BigEndianStep(x[..4], hash / 0x1_0000, x[4]);
    assert x[..4] + [x[4]] == x[..5];
    BigEndianStep(x[..5], hash / 0x100, x[5]);
    assert x[..5] + [x[5]] == x;
  }

  lemma HashDigits(hash: nat)
    requires hash < 0x1_0000_0000_0000
    ensures var x := HashOctets(hash);
            && |x| == 6
            && x[0] == hash / 0x100_0000_0000
            && 256 * (hash / 0x100_0000_0000) + x[1] == hash / 0x1_0000_0000
            && 256 * (hash / 0x1_0000_0000) + x[2] == hash / 0x100_0000
            && 256 * (hash / 0x100_0000) + x[3] == hash / 0x1_0000
            && 256 * (hash / 0x1_0000) + x[4] == hash / 0x100
            && 256 * (hash / 0x100) + x[5] == hash
  {
    DivideTwice(hash, 0x1_0000_0000);
    DivideTwice(hash, 0x100_0000);
    DivideTwice(hash, 0x1_0000);
    DivideTwice(hash, 0x100);
    Divide(hash, 0x100, hash / 0x100, hash % 0x100);
  }

  lemma NoOctets()
    ensures BigEndian([]) == 0
  {
  }

  /** A hash below 2^48 has eight characters without padding, and decodes to six octets worth the hash. */
  lemma HashRoundTrip(hash: nat)
    requires hash < 0x1_0000_0000_0000
    ensures var text := Rfc4648(HashOctets(hash));
            && |text| == 8 && text[7] != EQUALS && text[6] != EQUALS
            && DecodedText(text) == Octets(HashOctets(hash))
    ensures BigEndian(HashOctets(hash)) == hash
  {
    hide Rfc4648, BigEndian, DecodedText;
    HashValue(hash);
    var x := HashOctets(hash);
    TextShape(x);
    DecodeEncode(x);
  }
}
