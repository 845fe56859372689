/**
  The tables of module Base64 against the alphabet of section 4 of RFC 4648,
  written out.
 */
module Base64Alphabet {
  import opened Bytes
  import opened Base64

  const A_TO_M := "ABCDEFGHIJKLM"
  const N_TO_Z := "NOPQRSTUVWXYZ"
  const SMALL_A_TO_M := "abcdefghijklm"
  const SMALL_N_TO_Z := "nopqrstuvwxyz"

  /** The base 64 alphabet of the standard. */
  const ALPHABET := A_TO_M + N_TO_Z + SMALL_A_TO_M + SMALL_N_TO_Z + "0123456789+/"

  lemma AToM(i: nat)
    requires i < 13
    ensures |A_TO_M| == 13 && A_TO_M[i] as int == i + 65
  {
    assert Codes(A_TO_M) == [65, 66, 67, 68, 69, 70, 71, 72, 73, 74, 75, 76, 77];
    assert Codes(A_TO_M)[i] == i + 65;
  }

  lemma NToZ(i: nat)
    requires i < 13
    ensures |N_TO_Z| == 13 && N_TO_Z[i] as int == i + 78
  {
    assert Codes(N_TO_Z) == [78, 79, 80, 81, 82, 83, 84, 85, 86, 87, 88, 89, 90];
    assert Codes(N_TO_Z)[i] == i + 78;
  }

  lemma SmallAToM(i: nat)
    requires i < 13
    ensures |SMALL_A_TO_M| == 13 && SMALL_A_TO_M[i] as int == i + 97
  {
    assert Codes(SMALL_A_TO_M) == [97, 98, 99, 100, 101, 102, 103, 104, 105, 106, 107, 108, 109];
    assert Codes(SMALL_A_TO_M)[i] == i + 97;
  }

  lemma SmallNToZ(i: nat)
    requires i < 13
    ensures |SMALL_N_TO_Z| == 13 && SMALL_N_TO_Z[i] as int == i + 110
  {
    assert Codes(SMALL_N_TO_Z) == [110, 111, 112, 113, 114, 115, 116, 117, 118, 119, 120, 121, 122];
    assert Codes(SMALL_N_TO_Z)[i] == i + 110;
  }

  lemma RestAt(i: nat)
    requires i < 12
    ensures |"0123456789+/"| == 12
    ensures "0123456789+/"[i] as int == if i < 10 then i + 48 else if i == 10 then 43 else 47
  {
    assert Codes("0123456789+/") == [48, 49, 50, 51, 52, 53, 54, 55, 56, 57, 43, 47];
    assert Codes("0123456789+/")[i] == if i < 10 then i + 48 else if i == 10 then 43 else 47;
  }

  /** The symbols are those of the alphabet, in its order. */
  lemma AlphabetSymbols(i: nat)
    requires i < 64
    ensures |ALPHABET| == 64 && Symbol(i) == ALPHABET[i] as int
  {
    AToM(0);
    NToZ(0);
    SmallAToM(0);
    SmallNToZ(0);
    RestAt(0);
    if i < 13 {
      AToM(i);
      assert ALPHABET[i] == A_TO_M[i];
    } else if i < 26 {
      NToZ(i - 13);
      assert ALPHABET[i] == N_TO_Z[i - 13];
    } else if i < 39 {
      SmallAToM(i - 26);
      assert ALPHABET[i] == SMALL_A_TO_M[i - 26];
    } else if i < 52 {
      SmallNToZ(i - 39);
      assert ALPHABET[i] == SMALL_N_TO_Z[i - 39];
    } else {
      RestAt(i - 52);
      assert ALPHABET[i] == "0123456789+/"[i - 52];
    }
  }

  /** A character's index is its place in the alphabet, and 0 for characters that have none. */
  lemma AlphabetIndex(c: byte)
    ensures |ALPHABET| == 64
    ensures ALPHABET[IndexOf(c)] as int == c || (IndexOf(c) == 0 && c as char !in ALPHABET)
  {
    hide Symbol, IndexOf;
    AlphabetSymbols(0);
    IndexIsPlace(c);
    AlphabetSymbols(IndexOf(c));
    if c as char in ALPHABET {
      var i: nat :| i < 64 && ALPHABET[i] == c as char;
      AlphabetSymbols(i);
      SymbolIndex(i);
    }
  }

  lemma IndexIsPlace(c: byte)
    ensures Symbol(IndexOf(c)) == c || IndexOf(c) == 0
  {
  }
}
