/**
  The ALPN protocol list scanner (include/utilities.h), against the wire format
  of section 3.1 of RFC 7301: entries behind one-octet lengths.
 */
module Alpn {
  import opened Bytes

  const H2: bytes := [104, 50]
  const H2_16: bytes := [104, 50, 45, 49, 54]
  const H2_14: bytes := [104, 50, 45, 49, 52]

  lemma Names()
    ensures H2 == Codes("h2") && H2_16 == Codes("h2-16") && H2_14 == Codes("h2-14")
  {
  }

  /** A protocol name as an octet string no longer than 255. */
  predicate IsName(e: bytes) { |e| <= 255 }

  /** A name behind its length. */
  function Prefixed(e: bytes): bytes
    requires IsName(e)
  {
    [|e|] + e
  }

  /** A protocol list on the wire. */
  function Wire(entries: seq<bytes>): bytes
    requires forall e | e in entries :: IsName(e)
  {
    if entries == [] then [] else Prefixed(entries[0]) + Wire(entries[1..])
  }

  /** The position of a key at or after p, stepping by the length octets. */
  function Found(list: bytes, p: nat, key: bytes): int
    requires key != []
    decreases |list| - p
  {
    if p + |key| > |list| then -1
    else if list[p..p + |key|] == key then p
    else Found(list, p + list[p] + 1, key)
  }

  /** selectProto: out is an offset into the list. */
  method SelectProto(list: bytes, key: bytes) returns (ok: bool, out: nat, outlen: byte)
    requires key != []
    ensures ok <==> Found(list, 0, key) >= 0
    ensures ok ==> out == Found(list, 0, key) + 1 && out + |key| - 1 <= |list| && outlen == list[out - 1] == key[0]
  {
    out, outlen := 0, 0;
    var p := 0;
    while p + |key| <= |list|
      invariant Found(list, p, key) == Found(list, 0, key)
      decreases |list| - p
    {
      if list[p..p + |key|] == key {
        assert list[p] == list[p..p + |key|][0];
        return true, p + 1, list[p];
      }
      p := p + list[p] + 1;
    }
    return false, 0, 0;
  }

  /** selectH2: the preferences in order, each over the whole list. */
  method SelectH2(list: bytes) returns (ok: bool, out: nat, outlen: byte)
    ensures ok <==> Selected(list).0 >= 0
    ensures ok ==> out == Selected(list).0 + 1 && outlen == |Selected(list).1|
    ensures ok ==> out + outlen <= |list| && list[out..out + outlen] == Selected(list).1
  {
    FoundText(list, 0, Prefixed(H2));
    FoundText(list, 0, Prefixed(H2_16));
    FoundText(list, 0, Prefixed(H2_14));
    ok, out, outlen := SelectProto(list, Prefixed(H2));
    if !ok {
      ok, out, outlen := SelectProto(list, Prefixed(H2_16));
      if !ok {
        ok, out, outlen := SelectProto(list, Prefixed(H2_14));
      }
    }
  }

  /** The position of the entry selectH2 chooses, and its name. */
  function Selected(list: bytes): (int, bytes) {
    if Found(list, 0, Prefixed(H2)) >= 0 then (Found(list, 0, Prefixed(H2)), H2)
    else if Found(list, 0, Prefixed(H2_16)) >= 0 then (Found(list, 0, Prefixed(H2_16)), H2_16)
    else (Found(list, 0, Prefixed(H2_14)), H2_14)
  }

  /** The scan stays inside the list, and stops at the key. */
  lemma {:induction false} FoundText(list: bytes, p: nat, key: bytes)
    requires key != []
    ensures Found(list, p, key) >= 0 ==>
              var q := Found(list, p, key); p <= q && q + |key| <= |list| && list[q..q + |key|] == key
    decreases |list| - p
  {
    if p + |key| <= |list| && list[p..p + |key|] != key {
      FoundText(list, p + list[p] + 1, key);
    }
  }

  /** getDefaultAlpn */
  method GetDefaultAlpn() returns (res: array<byte>)
    ensures fresh(res) && res[..] == Wire([Codes("h2"), Codes("h2-16"), Codes("h2-14")])
    ensures res[..] == [2] + Codes("h2") + ([5] + Codes("h2-16") + ([5] + Codes("h2-14")))
  {
    Names();
    var a, b, c := Prefixed(H2), Prefixed(H2_16), Prefixed(H2_14);
    res := new byte[|a| + |b| + |c|];
    var p := CopyN(a, res, 0);
    p := CopyN(b, res, p);
    p := CopyN(c, res, p);
    assert [H2, H2_16, H2_14][1..] == [H2_16, H2_14];
    assert [H2_16, H2_14][1..] == [H2_14];
    assert Wire([H2_14]) == c by { assert [H2_14][1..] == []; }
    assert Wire([H2, H2_16, H2_14]) == a + (b + c);
    assert res[..] == (a + b) + c;
  }

  // ---------- well-formed lists ----------

  /** The first entry equal to k, or |entries|. */
  function FirstIndex(entries: seq<bytes>, k: bytes): (i: nat)
    ensures i <= |entries|
    ensures i < |entries| ==> entries[i] == k
    ensures forall j | 0 <= j < i :: entries[j] != k
  {
    if entries == [] || entries[0] == k then 0 else 1 + FirstIndex(entries[1..], k)
  }

  /** Length octets keep a key from matching anything but the whole entry. */
  lemma KeyMatchesEntry(before: bytes, e: bytes, rest: bytes, k: bytes)
    requires IsName(e) && IsName(k)
    ensures var (list, key) := (before + (Prefixed(e) + rest), Prefixed(k));
            && list[|before|] == |e|
            && (|before| + |key| <= |list| && list[|before|..|before| + |key|] == key <==> e == k)
  {
    var (list, key) := (before + (Prefixed(e) + rest), Prefixed(k));
    assert list[|before|..|before| + |Prefixed(e)|] == Prefixed(e);
    if |before| + |key| <= |list| && list[|before|..|before| + |key|] == key {
      assert key[0] == list[|before|];
      assert key[1..] == e;
    }
  }

  /** At an entry the scan stops or steps over the whole entry. */
  lemma FoundSteps(before: bytes, e: bytes, rest: bytes, k: bytes)
    requires IsName(e) && IsName(k)
    ensures var (list, key) := (before + (Prefixed(e) + rest), Prefixed(k));
            var next := before + Prefixed(e);
            && list == next + rest
            && Found(list, |before|, key) == if e == k then |before| else Found(list, |next|, key)
  {
    KeyMatchesEntry(before, e, rest, k);
  }

  /** On a well-formed list the scan finds whole entries only, and the first of them. */
  lemma {:induction false} FoundInWire(before: bytes, entries: seq<bytes>, k: bytes)
    requires IsName(k) && forall e | e in entries :: IsName(e)
    ensures var i := FirstIndex(entries, k);
            Found(before + Wire(entries), |before|, Prefixed(k)) ==
            if i < |entries| then |before| + |Wire(entries[..i])| else -1
    decreases |entries|
  {
    if entries != [] {
      hide Found;
      var e := entries[0];
      FoundSteps(before, e, Wire(entries[1..]), k);
      if e != k {
        FoundInWire(before + Prefixed(e), entries[1..], k);
        var i := FirstIndex(entries[1..], k);
        if i < |entries| - 1 {
          WireTake(entries, i);
        }
      }
    }
  }

  lemma WireTake(entries: seq<bytes>, i: nat)
    requires i < |entries| - 1 && forall e | e in entries :: IsName(e)
    ensures |Wire(entries[..i + 1])| == |Prefixed(entries[0])| + |Wire(entries[1..][..i])|
  {
    assert entries[..i + 1][1..] == entries[1..][..i];
  }

  lemma FoundFirst(entries: seq<bytes>, k: bytes)
    requires IsName(k) && forall e | e in entries :: IsName(e)
    ensures Found(Wire(entries), 0, Prefixed(k)) >= 0 <==> k in entries
    ensures k in entries ==>
              var i := FirstIndex(entries, k);
              i < |entries| && Found(Wire(entries), 0, Prefixed(k)) == |Wire(entries[..i])|
  {
    assert [] + Wire(entries) == Wire(entries);
    FoundInWire([], entries, k);
  }

  /**
    On a well-formed list selectH2 succeeds exactly when h2, h2-16 or h2-14 is an
    entry, and points at the first occurrence of the most preferred one, wherever
    the others stand.
   */
  lemma SelectsPreferred(entries: seq<bytes>)
    requires forall e | e in entries :: IsName(e)
    ensures Selected(Wire(entries)).0 >= 0 <==>
            Codes("h2") in entries || Codes("h2-16") in entries || Codes("h2-14") in entries
    ensures Selected(Wire(entries)).0 >= 0 ==>
              var name := if Codes("h2") in entries then Codes("h2")
                          else if Codes("h2-16") in entries then Codes("h2-16") else Codes("h2-14");
              && name in entries
              && Selected(Wire(entries)) == (|Wire(entries[..FirstIndex(entries, name)])|, name)
  {
    hide Found, Wire, FirstIndex;
    Names();
    hide Codes;
    FoundFirst(entries, H2);
    FoundFirst(entries, H2_16);
    FoundFirst(entries, H2_14);
  }

  /** The client's own list selects h2, at its start. */
  lemma DefaultSelectsH2()
    ensures Selected(Wire([Codes("h2"), Codes("h2-16"), Codes("h2-14")])) == (0, Codes("h2"))
  {
    Names();
    hide Codes;
    SelectsPreferred([Codes("h2"), Codes("h2-16"), Codes("h2-14")]);
  }
}
