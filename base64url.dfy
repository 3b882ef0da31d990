/** Unpadded base64 with the URL- and filename-safe alphabet (section 5 of
    RFC 4648), the `BASE64URL_NOPAD` encoding the handler writes its
    authorization codes in. */
module Base64Url {

  type byte = b: int | 0 <= b < 256

  /** The 64 characters of the URL-safe alphabet. */
  predicate UrlSafe(c: char)
  {
    ('A' <= c <= 'Z') || ('a' <= c <= 'z') || ('0' <= c <= '9') || c == '-' || c == '_'
  }

  function Symbol(v: nat): (c: char)
    requires v < 64
    ensures UrlSafe(c)
  {
    if v < 26 then (65 + v) as char
    else if v < 52 then (97 + v - 26) as char
    else if v < 62 then (48 + v - 52) as char
    else if v == 62 then '-'
    else '_'
  }

  function Value(c: char): (v: nat)
    requires UrlSafe(c)
    ensures v < 64
  {
    if 'A' <= c <= 'Z' then c as int - 65
    else if 'a' <= c <= 'z' then c as int - 97 + 26
    else if '0' <= c <= '9' then c as int - 48 + 52
    else if c == '-' then 62
    else 63
  }

  lemma ValueSymbol(v: nat)
    requires v < 64
    ensures Value(Symbol(v)) == v
  {
  }

  /** Every three bytes become four symbols; a last one byte becomes two
      symbols and a last two bytes three, with no `=` padding. */
  function Encode(bs: seq<byte>): (s: string)
    ensures |s| == (4 * |bs| + 2) / 3
    ensures forall i :: 0 <= i < |s| ==> UrlSafe(s[i])
    decreases |bs|
  {
    if |bs| == 0 then ""
    else if |bs| == 1 then
      [Symbol(bs[0] / 4), Symbol(bs[0] % 4 * 16)]
    else if |bs| == 2 then
      [Symbol(bs[0] / 4), Symbol(bs[0] % 4 * 16 + bs[1] / 16), Symbol(bs[1] % 16 * 4)]
    else
      [Symbol(bs[0] / 4), Symbol(bs[0] % 4 * 16 + bs[1] / 16),
       Symbol(bs[1] % 16 * 4 + bs[2] / 64), Symbol(bs[2] % 64)]
      + Encode(bs[3..])
  }

  /** A text Decode accepts: URL-safe symbols only, and no group of a single
      symbol at the end. */
  predicate Decodable(s: string)
  {
    |s| % 4 != 1 && forall i :: 0 <= i < |s| ==> UrlSafe(s[i])
  }

  function Decode(s: string): (bs: seq<byte>)
    requires Decodable(s)
    decreases |s|
  {
    if |s| < 2 then []
    else
      var v0, v1 := Value(s[0]), Value(s[1]);
      if |s| == 2 then [v0 * 4 + v1 / 16]
      else
        var v2 := Value(s[2]);
        if |s| == 3 then [v0 * 4 + v1 / 16, v1 % 16 * 16 + v2 / 4]
        else
          var v3 := Value(s[3]);
          [v0 * 4 + v1 / 16, v1 % 16 * 16 + v2 / 4, v2 % 4 * 64 + v3] + Decode(s[4..])
  }

  /** The arithmetic of one group: the bytes come back from their symbols. */
  lemma GroupArithmetic(b0: byte, b1: byte, b2: byte)
    ensures (b0 / 4) * 4 + (b0 % 4 * 16 + b1 / 16) / 16 == b0
    ensures (b0 % 4 * 16 + b1 / 16) % 16 * 16 + (b1 % 16 * 4 + b2 / 64) / 4 == b1
    ensures (b1 % 16 * 4 + b2 / 64) % 4 * 64 + b2 % 64 == b2
  {
  }

  /** The arithmetic of a last one or two bytes. */
  lemma TailArithmetic(b0: byte, b1: byte)
    ensures (b0 / 4) * 4 + (b0 % 4 * 16) / 16 == b0
    ensures (b0 % 4 * 16 + b1 / 16) % 16 * 16 + (b1 % 16 * 4) / 4 == b1
  {
  }

  /** Decode, one step, stated on the symbol values. */
  lemma DecodeTwo(s: string, v0: nat, v1: nat)
    requires Decodable(s) && |s| == 2
    requires Value(s[0]) == v0 && Value(s[1]) == v1
    ensures Decode(s) == [v0 * 4 + v1 / 16]
  {
  }

  lemma DecodeThree(s: string, v0: nat, v1: nat, v2: nat)
    requires Decodable(s) && |s| == 3
    requires Value(s[0]) == v0 && Value(s[1]) == v1 && Value(s[2]) == v2
    ensures Decode(s) == [v0 * 4 + v1 / 16, v1 % 16 * 16 + v2 / 4]
  {
  }

  lemma DecodeFour(s: string, v0: nat, v1: nat, v2: nat, v3: nat)
    requires Decodable(s) && |s| >= 4
    requires Value(s[0]) == v0 && Value(s[1]) == v1 && Value(s[2]) == v2 && Value(s[3]) == v3
    ensures Decodable(s[4..])
    ensures Decode(s) == [v0 * 4 + v1 / 16, v1 % 16 * 16 + v2 / 4, v2 % 4 * 64 + v3] + Decode(s[4..])
  {
    DecodableSuffix(s);
  }

  lemma DecodableSuffix(s: string)
    requires Decodable(s) && |s| >= 4
    ensures Decodable(s[4..])
  {
    forall i | 0 <= i < |s| - 4 ensures UrlSafe(s[4..][i]) {
      assert s[4..][i] == s[i + 4];
    }
  }

  lemma DecodeGroup(bs: seq<byte>)
    requires |bs| >= 3
    ensures Decodable(Encode(bs)) && |Encode(bs)| >= 4
    ensures Decode(Encode(bs)) == bs[..3] + Decode(Encode(bs[3..]))
  {
    var s, rest := Encode(bs), Encode(bs[3..]);
    var a0, a1, a2, a3 := bs[0] / 4, bs[0] % 4 * 16 + bs[1] / 16, bs[1] % 16 * 4 + bs[2] / 64, bs[2] % 64;
    assert s == [Symbol(a0), Symbol(a1), Symbol(a2), Symbol(a3)] + rest;
    ValueSymbol(a0);
    ValueSymbol(a1);
    ValueSymbol(a2);
    ValueSymbol(a3);
    assert s[4..] == rest;
    DecodeFour(s, a0, a1, a2, a3);
    GroupArithmetic(bs[0], bs[1], bs[2]);
  }

  lemma DecodeOneByte(bs: seq<byte>)
    requires |bs| == 1
    ensures Decodable(Encode(bs)) && Decode(Encode(bs)) == bs
  {
    var s := Encode(bs);
    var a0, a1 := bs[0] / 4, bs[0] % 4 * 16;
    assert s == [Symbol(a0), Symbol(a1)];
    ValueSymbol(a0);
    ValueSymbol(a1);
    assert Value(s[0]) == a0 && Value(s[1]) == a1;
    DecodeTwo(s, a0, a1);
    TailArithmetic(bs[0], 0);
    assert a0 * 4 + a1 / 16 == bs[0];
  }

  lemma DecodeTwoBytes(bs: seq<byte>)
    requires |bs| == 2
    ensures Decodable(Encode(bs)) && Decode(Encode(bs)) == bs
  {
    var s := Encode(bs);
    var a0, a1, a2 := bs[0] / 4, bs[0] % 4 * 16 + bs[1] / 16, bs[1] % 16 * 4;
    assert s == [Symbol(a0), Symbol(a1), Symbol(a2)];
    ValueSymbol(a0);
    ValueSymbol(a1);
    ValueSymbol(a2);
    assert Value(s[0]) == a0 && Value(s[1]) == a1 && Value(s[2]) == a2;
    DecodeThree(s, a0, a1, a2);
    TailArithmetic(bs[0], bs[1]);
    assert a0 * 4 + a1 / 16 == bs[0];
    assert a1 % 16 * 16 + a2 / 4 == bs[1];
  }

  /** Decoding gives back the encoded bytes. */
  lemma {:induction false} DecodeEncode(bs: seq<byte>)
    ensures Decodable(Encode(bs)) && Decode(Encode(bs)) == bs
    decreases |bs|
  {
    if |bs| == 1 {
      DecodeOneByte(bs);
    } else if |bs| == 2 {
      DecodeTwoBytes(bs);
    } else if |bs| >= 3 {
      DecodeGroup(bs);
      DecodeEncode(bs[3..]);
      assert bs == bs[..3] + bs[3..];
    }
  }

  /** Distinct byte strings have distinct encodings. */
  lemma EncodeInjective(a: seq<byte>, b: seq<byte>)
    requires Encode(a) == Encode(b)
    ensures a == b
  {
    DecodeEncode(a);
    DecodeEncode(b);
  }
}
