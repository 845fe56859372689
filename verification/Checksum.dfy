/**
  The Internet checksum of the ping test (tests/requests/include/icmp_header.h),
  against section 1 of RFC 1071.
 */
module Checksum {
  import opened Bytes

  const TWO_32 := 0x1_0000_0000

  // ---------- the standard ----------

  /** The sum of the big-endian 16-bit words, an odd last octet padded with zero. */
  function SumWords(s: bytes): nat {
    if s == [] then 0
    else if |s| == 1 then 0x100 * s[0] as int
    else 0x100 * s[0] as int + s[1] as int + SumWords(s[2..])
  }

  /** One's complement addition: the carry out of bit 15 is added back in. */
  function OnesAdd(a: nat, b: nat): nat {
    if a + b > 0xffff then a + b - 0xffff else a + b
  }

  /** The one's complement sum of the words. */
  function OnesSum(s: bytes): nat {
    if s == [] then 0
    else if |s| == 1 then 0x100 * s[0] as int
    else OnesAdd(OnesSum(s[2..]), 0x100 * s[0] as int + s[1] as int)
  }

  /** A receiver accepts octets whose one's complement sum is all ones. */
  predicate Verifies(s: bytes) { OnesSum(s) == 0xffff }

  /** The words of an eight-octet header but for the checksum. */
  function HeaderPart(rep: bytes): nat
    requires |rep| == 8
  {
    0x100 * rep[0] as int + rep[1] as int
    + (0x100 * rep[4] as int + rep[5] as int) + (0x100 * rep[6] as int + rep[7] as int)
  }

  // ---------- icmp_header ----------

  class IcmpHeader {
    const rep: array<byte>

    ghost predicate Valid()
    {
      rep.Length == 8
    }

    constructor ()
      ensures Valid() && fresh(rep) && rep[..] == [0, 0, 0, 0, 0, 0, 0, 0]
    {
      rep := new byte[8](_ => 0);
    }

    function Get(a: nat, b: nat): int
      requires Valid() && a < 8 && b < 8
      reads rep
    {
      0x100 * rep[a] as int + rep[b] as int
    }

    /** The 16-bit big-endian value n in octets a and b. */
    method Put(a: nat, b: nat, n: int)
      requires Valid() && a < 8 && b < 8 && a != b && 0 <= n <= 0xffff
      modifies rep
      ensures rep[..] == old(rep[..])[a := n / 0x100][b := n % 0x100]
      ensures Get(a, b) == n
    {
      rep[a] := n / 0x100;
      rep[b] := n % 0x100;
    }

    function Type(): int requires Valid() reads rep { rep[0] }

    function Code(): int requires Valid() reads rep { rep[1] }

    function Checksum(): int requires Valid() reads rep { Get(2, 3) }

    function Identifier(): int requires Valid() reads rep { Get(4, 5) }

    function SequenceNumber(): int requires Valid() reads rep { Get(6, 7) }
  }

  /** Two folds of the high half into the low half, cut to 16 bits. */
  function Folded(m: nat): nat {
    var once := m / 0x1_0000 + m % 0x1_0000;
    (once + once / 0x1_0000) % 0x1_0000
  }

  /** A 32-bit unsigned addition. */
  function Add32(a: nat, b: nat): nat { (a + b) % TWO_32 }

  /**
    compute_checksum.  The packet verifies exactly when the carries lost from the
    32-bit sum number a multiple of 65535: none at all, on short bodies.
   */
  method ComputeChecksum(header: IcmpHeader, body: bytes)
    requires header.Valid()
    modifies header.rep
    ensures header.rep[..2] == old(header.rep[..2]) && header.rep[4..] == old(header.rep[4..])
    ensures header.Checksum() == 0xffff - Folded((HeaderPart(header.rep[..]) + SumWords(body)) % TWO_32)
    ensures Verifies(header.rep[..] + body) <==> (HeaderPart(header.rep[..]) + SumWords(body)) / TWO_32 % 0xffff == 0
    ensures |body| <= 131068 ==> Verifies(header.rep[..] + body)
  {
    hide OnesSum, SumWords, Folded, Add32;
    ghost var (rep0, h) := (header.rep[..], HeaderPart(header.rep[..]));
    var sum: nat := 0x100 * header.Type() + header.Code() + header.Identifier() + header.SequenceNumber();
    assert sum == h;
    hide HeaderPart;
    var i := 0;
    assert body[..0] == [];
    NoWords();
    while i != |body|
      invariant 0 <= i <= |body| && (i % 2 == 0 || i == |body|)
      invariant sum == (h + SumWords(body[..i])) % TWO_32
      invariant header.rep[..] == rep0
    {
      ghost var i0 := i;
      ghost var t := h + SumWords(body[..i]);
      sum := Add32(sum, 0x100 * body[i] as int);
      i := i + 1;
      if i != |body| {
        sum := Add32(sum, body[i]);
        i := i + 1;
      }
      assert body[..i] == body[..i0] + body[i0..i];
      SumWordsAppend(body[..i0], body[i0..i]);
      WordAdded(t, body[i0..i]);
    }
    assert body[..i] == body;
    ComplementIs(sum);
    sum := sum / 0x1_0000 + sum % 0x1_0000;
    sum := sum + sum / 0x1_0000;
    var complement := TWO_32 - 1 - sum;
    header.Put(2, 3, complement % 0x1_0000);
    ChecksumOnly(rep0, complement % 0x1_0000);
    PacketVerifies(header.rep[..], body);
    if |body| <= 131068 {
      ShortBodies(header.rep[..], body);
    }
  }

  lemma ChecksumOnly(rep: bytes, n: nat)
    requires |rep| == 8 && n <= 0xffff
    ensures var rep' := rep[2 := n / 0x100][3 := n % 0x100];
            && HeaderPart(rep') == HeaderPart(rep)
            && rep'[..2] == rep[..2] && rep'[4..] == rep[4..]
  {
  }

  lemma NoWords()
    ensures SumWords([]) == 0
  {
  }

  /** The complement of a sum folded twice, cut to 16 bits. */
  lemma ComplementIs(m: nat)
    requires m < TWO_32
    ensures var once := m / 0x1_0000 + m % 0x1_0000;
            var twice := once + once / 0x1_0000;
            twice < TWO_32 && (TWO_32 - 1 - twice) % 0x1_0000 == 0xffff - Folded(m) >= 0
  {
  }

  lemma AddedOnce(t: nat, a: nat)
    ensures Add32(t % TWO_32, a) == (t + a) % TWO_32
  {
    var (q, r) := (t / TWO_32, t % TWO_32);
    assert t + a == TWO_32 * q + (r + a);
  }

  lemma OneWord(w: bytes)
    ensures |w| == 1 ==> SumWords(w) == 0x100 * w[0] as int
    ensures |w| == 2 ==> SumWords(w) == 0x100 * w[0] as int + w[1] as int
  {
    assert |w| == 2 ==> w[2..] == [];
  }

  /** Adding the one or two octets of a word in 32 bits adds the word. */
  lemma WordAdded(t: nat, w: bytes)
    requires |w| == 1 || |w| == 2
    ensures |w| == 1 ==> (t + SumWords(w)) % TWO_32 == Add32(t % TWO_32, 0x100 * w[0] as int)
    ensures |w| == 2 ==>
              (t + SumWords(w)) % TWO_32 == Add32(Add32(t % TWO_32, 0x100 * w[0] as int), w[1])
  {
    hide SumWords, Add32;
    OneWord(w);
    AddedOnce(t, 0x100 * w[0] as int);
    if |w| == 2 {
      AddedOnce(t + 0x100 * w[0] as int, w[1]);
    }
  }

  lemma {:induction false} SumWordsAppend(a: bytes, b: bytes)
    requires |a| % 2 == 0
    ensures SumWords(a + b) == SumWords(a) + SumWords(b)
  {
    if a == [] {
      assert a + b == b;
    } else {
      assert (a + b)[2..] == a[2..] + b;
      SumWordsAppend(a[2..], b);
    }
  }

  // ---------- the theorem ----------

  /** Folding twice keeps the residue modulo 65535, and only zero folds to zero. */
  lemma FoldKeepsResidue(m: nat)
    requires m < TWO_32
    ensures Folded(m) <= 0xffff
    ensures Folded(m) % 0xffff == m % 0xffff
    ensures Folded(m) == 0 <==> m == 0
  {
    var once := m / 0x1_0000 + m % 0x1_0000;
    assert m == 0xffff * (m / 0x1_0000) + once;
    ResidueOf(m, once, m / 0x1_0000);
    var f := Folded(m);
    if once >= 0x1_0000 {
      assert f == once - 0xffff;
      ResidueOf(once, f, 1);
    } else {
      assert f == once;
    }
  }

  lemma ResidueOf(a: int, b: int, k: int)
    requires a == 0xffff * k + b
    ensures a % 0xffff == b % 0xffff
  {
  }

  /** The one's complement sum is the plain sum modulo 65535, with 65535 for the nonzero multiples. */
  lemma {:induction false} OnesSumResidue(s: bytes)
    ensures OnesSum(s) <= 0xffff
    ensures OnesSum(s) % 0xffff == SumWords(s) % 0xffff
    ensures OnesSum(s) == 0 <==> SumWords(s) == 0
  {
    if |s| >= 2 {
      OnesSumResidue(s[2..]);
      var (a, b) := (OnesSum(s[2..]), 0x100 * s[0] as int + s[1] as int);
      SameResidue(a, SumWords(s[2..]), b);
      if a + b > 0xffff {
        ResidueOf(a + b, a + b - 0xffff, 1);
      }
    }
  }

  lemma SameResidue(a: int, c: int, b: int)
    requires a % 0xffff == c % 0xffff
    ensures (a + b) % 0xffff == (c + b) % 0xffff
  {
  }

  /** The header's words: all of them, and all but the checksum. */
  lemma HeaderWords(rep: bytes)
    requires |rep| == 8
    ensures SumWords(rep) == HeaderPart(rep) + (0x100 * rep[2] as int + rep[3] as int)
  {
    assert rep[2..][2..] == rep[4..] && rep[4..][2..] == rep[6..] && rep[6..][2..] == [];
    assert SumWords(rep[6..]) == 0x100 * rep[6] as int + rep[7] as int;
    assert SumWords(rep[4..]) == 0x100 * rep[4] as int + rep[5] as int + SumWords(rep[6..]);
    assert SumWords(rep[2..]) == 0x100 * rep[2] as int + rep[3] as int + SumWords(rep[4..]);
  }

  /** A sum and its checksum make all ones exactly when the lost carries are a multiple of 65535. */
  lemma ComplementVerifies(t: nat)
    ensures (t + (0xffff - Folded(t % TWO_32))) % 0xffff == 0 <==> t / TWO_32 % 0xffff == 0
    ensures t + (0xffff - Folded(t % TWO_32)) > 0
  {
    var (m, k) := (t % TWO_32, t / TWO_32);
    FoldKeepsResidue(m);
    var f := Folded(m);
    hide Folded;
    assert TWO_32 == 0xffff * 0x1_0001 + 1;
    assert t == 0xffff * (0x1_0001 * k) + (k + m);
    ResidueOf(t + (0xffff - f), k + m - f, 0x1_0001 * k + 1);
    var (p, q) := (m / 0xffff, f / 0xffff);
    assert m - f == 0xffff * (p - q);
    ResidueOf(k + m - f, k, p - q);
  }

  lemma PacketVerifies(rep: bytes, body: bytes)
    requires |rep| == 8
    requires var t := HeaderPart(rep) + SumWords(body);
             0x100 * rep[2] as int + rep[3] as int == 0xffff - Folded(t % TWO_32)
    ensures var t := HeaderPart(rep) + SumWords(body);
            Verifies(rep + body) <==> t / TWO_32 % 0xffff == 0
  {
    hide Folded, SumWords, OnesSum;
    var t := HeaderPart(rep) + SumWords(body);
    HeaderWords(rep);
    SumWordsAppend(rep, body);
    OnesSumResidue(rep + body);
    ComplementVerifies(t);
    assert SumWords(rep + body) == t + (0xffff - Folded(t % TWO_32));
    ResidueZero(OnesSum(rep + body));
  }

  lemma ResidueZero(n: nat)
    requires n <= 0xffff
    ensures n % 0xffff == 0 <==> n == 0 || n == 0xffff
  {
  }

  lemma {:induction false} SumBound(s: bytes)
    ensures SumWords(s) <= (|s| + 1) / 2 * 0xffff
  {
    if |s| >= 2 {
      SumBound(s[2..]);
    }
  }

  /** 65534 words of body and three of header cannot overflow 32 bits. */
  lemma ShortBodies(rep: bytes, body: bytes)
    requires |rep| == 8 && |body| <= 131068
    ensures HeaderPart(rep) + SumWords(body) < TWO_32
  {
    SumBound(body);
  }

  lemma {:induction false} AllOnes(n: nat)
    ensures SumWords(Repeat(255, 2 * n)) == n * 0xffff
  {
    if n > 0 {
      assert Repeat(255, 2 * n)[2..] == Repeat(255, 2 * (n - 1));
      AllOnes(n - 1);
    }
  }

  /**
    One octet more can: behind a header of ones, 131069 octets of 255 lose a carry
    from the sum, and the packet does not verify.
   */
  lemma BoundIsTight(rep: bytes)
    requires rep == [255, 255, 1, 0, 255, 255, 255, 255]
    ensures var body := Repeat(255, 131069);
            && 0x100 * rep[2] as int + rep[3] as int == 0xffff - Folded((HeaderPart(rep) + SumWords(body)) % TWO_32)
            && !Verifies(rep + body)
  {
    hide SumWords, OnesSum, Folded, Repeat;
    OddOnes();
    FoldedOnes();
    assert HeaderPart(rep) == 3 * 0xffff;
    hide HeaderPart;
    PacketVerifies(rep, Repeat(255, 131069));
  }

  lemma FoldedOnes()
    ensures var t := 3 * 0xffff + (65534 * 0xffff + 0xff00);
            t / TWO_32 == 1 && Folded(t % TWO_32) == 0xfeff
  {
  }

  lemma OddOnes()
    ensures SumWords(Repeat(255, 131069)) == 65534 * 0xffff + 0xff00
  {
    hide SumWords;
    AllOnes(65534);
    SumWordsAppend(Repeat(255, 2 * 65534), [255]);
    OneWord([255]);
    assert Repeat(255, 131069) == Repeat(255, 2 * 65534) + [255];
  }
}
