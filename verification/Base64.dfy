/** Unpadded standard base64 (sections 3.2 and 4 of RFC 4648), decoded strictly. */
module Base64 {
  import opened Wrappers

  type Byte = b: int | 0 <= b < 256

  /** Table 1 of RFC 4648. */
  function Char(v: int): char
    requires 0 <= v < 64
  {
    if v < 26 then 'A' + v as char
    else if v < 52 then 'a' + (v - 26) as char
    else if v < 62 then '0' + (v - 52) as char
    else if v == 62 then '+' else '/'
  }

  function Value(c: char): (v: int)
    ensures -1 <= v < 64
  {
    if 'A' <= c <= 'Z' then c as int - 'A' as int
    else if 'a' <= c <= 'z' then c as int - 'a' as int + 26
    else if '0' <= c <= '9' then c as int - '0' as int + 52
    else if c == '+' then 62 else if c == '/' then 63 else -1
  }

  /** The alphabet: A to Z, a to z, 0 to 9, plus and slash, in order. */
  lemma Alphabet(v: int)
    requires 0 <= v < 63
    ensures Char(0) == 'A' && Char(25) == 'Z' && Char(26) == 'a' && Char(51) == 'z'
    ensures Char(52) == '0' && Char(61) == '9' && Char(62) == '+' && Char(63) == '/'
    ensures v !in {25, 51, 61, 62} ==> Char(v + 1) as int == Char(v) as int + 1
  {
  }

  lemma ValueOfChar(v: int)
    requires 0 <= v < 64
    ensures Value(Char(v)) == v
  {
  }

  lemma CharOfValue(c: char)
    requires Value(c) >= 0
    ensures Char(Value(c)) == c
  {
  }

  function Encode(bytes: seq<Byte>): string {
    if bytes == [] then ""
    else if |bytes| == 1 then [Char(bytes[0] / 4), Char(bytes[0] % 4 * 16)]
    else if |bytes| == 2 then [Char(bytes[0] / 4), Char(bytes[0] % 4 * 16 + bytes[1] / 16), Char(bytes[1] % 16 * 4)]
    else Quad(bytes[0], bytes[1], bytes[2]) + Encode(bytes[3..])
  }

  function Quad(a: Byte, b: Byte, c: Byte): string {
    [Char(a / 4), Char(a % 4 * 16 + b / 16), Char(b % 16 * 4 + c / 64), Char(c % 64)]
  }

  /** The strict decoder: unused bits must be zero. */
  function Decode(s: string): Option<seq<Byte>> {
    if s == "" then Some([])
    else if |s| == 1 || Value(s[0]) < 0 || Value(s[1]) < 0 then None
    else if |s| == 2 then
      if Value(s[1]) % 16 != 0 then None else Some([First(s)])
    else if Value(s[2]) < 0 then None
    else if |s| == 3 then
      if Value(s[2]) % 4 != 0 then None else Some([First(s), Second(s)])
    else if Value(s[3]) < 0 || Decode(s[4..]).None? then None
    else Some([First(s), Second(s), Value(s[2]) % 4 * 64 + Value(s[3])] + Decode(s[4..]).value)
  }

  function First(s: string): Byte
    requires |s| > 1 && Value(s[0]) >= 0 && Value(s[1]) >= 0
  {
    Value(s[0]) * 4 + Value(s[1]) / 16
  }

  function Second(s: string): Byte
    requires |s| > 2 && Value(s[1]) >= 0 && Value(s[2]) >= 0
  {
    Value(s[1]) % 16 * 16 + Value(s[2]) / 4
  }

  /** The test vectors of section 10 of RFC 4648, without padding. */
  lemma TestVectors()
    ensures Encode([0x66]) == "Zg" && Encode([0x66, 0x6F]) == "Zm8" && Encode([0x66, 0x6F, 0x6F]) == "Zm9v"
    ensures Encode([0x66, 0x6F, 0x6F, 0x62, 0x61, 0x72]) == "Zm9vYmFy"
  {
    var foo, bar: seq<Byte> := [0x66, 0x6F, 0x6F], [0x62, 0x61, 0x72];
    assert foo[3..] == [] && bar[3..] == [] && Encode([]) == "";
    assert Encode(foo) == Quad(0x66, 0x6F, 0x6F) + "" == "Zm9v";
    assert Encode(bar) == Quad(0x62, 0x61, 0x72) + "" == "YmFy";
    assert (foo + bar)[3..] == bar && foo + bar == [0x66, 0x6F, 0x6F, 0x62, 0x61, 0x72];
    assert Encode(foo + bar) == Quad(0x66, 0x6F, 0x6F) + Encode(bar);
  }

  /** base64.RawStdEncoding.EncodedLen. */
  function EncodedLen(n: nat): nat { (n * 8 + 5) / 6 }

  lemma {:induction false} EncodeLength(bytes: seq<Byte>)
    ensures |Encode(bytes)| == EncodedLen(|bytes|)
  {
    if |bytes| >= 3 {
      EncodeLength(bytes[3..]);
    }
  }

  predicate InAlphabet(s: string) {
    forall k :: 0 <= k < |s| ==> Value(s[k]) >= 0
  }

  lemma {:induction false} EncodeAlphabet(bytes: seq<Byte>)
    ensures InAlphabet(Encode(bytes))
  {
    if |bytes| >= 3 {
      EncodeAlphabet(bytes[3..]);
      QuadValues(bytes[0], bytes[1], bytes[2]);
    } else if |bytes| == 2 {
      ValueOfChar(bytes[0] / 4);
      ValueOfChar(bytes[0] % 4 * 16 + bytes[1] / 16);
      ValueOfChar(bytes[1] % 16 * 4);
    } else if |bytes| == 1 {
      ValueOfChar(bytes[0] / 4);
      ValueOfChar(bytes[0] % 4 * 16);
    }
  }

  lemma QuadValues(a: Byte, b: Byte, c: Byte)
    ensures Value(Quad(a, b, c)[0]) == a / 4 && Value(Quad(a, b, c)[1]) == a % 4 * 16 + b / 16
    ensures Value(Quad(a, b, c)[2]) == b % 16 * 4 + c / 64 && Value(Quad(a, b, c)[3]) == c % 64
  {
    ValueOfChar(a / 4);
    ValueOfChar(a % 4 * 16 + b / 16);
    ValueOfChar(b % 16 * 4 + c / 64);
    ValueOfChar(c % 64);
  }

  lemma QuadRoundTrip(a: Byte, b: Byte, c: Byte, rest: string)
    ensures var s := Quad(a, b, c) + rest;
            && Value(s[0]) >= 0 && Value(s[1]) >= 0 && Value(s[2]) >= 0 && Value(s[3]) >= 0
            && First(s) == a && Second(s) == b && Value(s[2]) % 4 * 64 + Value(s[3]) == c
  {
    QuadValues(a, b, c);
    assert (Quad(a, b, c) + rest)[..4] == Quad(a, b, c);
  }

  lemma PairRoundTrip(a: Byte)
    ensures Decode([Char(a / 4), Char(a % 4 * 16)]) == Some([a])
  {
    ValueOfChar(a / 4);
    ValueOfChar(a % 4 * 16);
  }

  lemma DecodeThree(s: string)
    requires |s| == 3
    ensures Decode(s) ==
            if Value(s[0]) >= 0 && Value(s[1]) >= 0 && Value(s[2]) >= 0 && Value(s[2]) % 4 == 0 then Some([First(s), Second(s)])
            else None
  {
  }

  /** Two bytes as three sextets, and back. */
  lemma Rejoin(a: Byte, b: Byte)
    ensures a / 4 * 4 + (a % 4 * 16 + b / 16) / 16 == a
    ensures (a % 4 * 16 + b / 16) % 16 * 16 + b % 16 * 4 / 4 == b
  {
  }

  lemma TripleRoundTrip(a: Byte, b: Byte)
    ensures Decode([Char(a / 4), Char(a % 4 * 16 + b / 16), Char(b % 16 * 4)]) == Some([a, b])
  {
    ValueOfChar(a / 4);
    ValueOfChar(a % 4 * 16 + b / 16);
    ValueOfChar(b % 16 * 4);
    DecodeThree([Char(a / 4), Char(a % 4 * 16 + b / 16), Char(b % 16 * 4)]);
    Rejoin(a, b);
  }

  lemma DecodeFour(s: string)
    requires |s| >= 4 && Value(s[0]) >= 0 && Value(s[1]) >= 0 && Value(s[2]) >= 0 && Value(s[3]) >= 0
    requires Decode(s[4..]).Some?
    ensures Decode(s) == Some([First(s), Second(s), Value(s[2]) % 4 * 64 + Value(s[3])] + Decode(s[4..]).value)
  {
  }

  lemma DecodeQuad(a: Byte, b: Byte, c: Byte, rest: string)
    requires Decode(rest).Some?
    ensures Decode(Quad(a, b, c) + rest) == Some([a, b, c] + Decode(rest).value)
  {
    QuadRoundTrip(a, b, c, rest);
    assert (Quad(a, b, c) + rest)[4..] == rest;
    DecodeFour(Quad(a, b, c) + rest);
  }

  lemma {:induction false} DecodeEncode(bytes: seq<Byte>)
    ensures Decode(Encode(bytes)) == Some(bytes)
  {
    if |bytes| == 1 {
      PairRoundTrip(bytes[0]);
      assert bytes == [bytes[0]];
    } else if |bytes| == 2 {
      TripleRoundTrip(bytes[0], bytes[1]);
      assert bytes == [bytes[0], bytes[1]];
    } else if |bytes| >= 3 {
      DecodeEncode(bytes[3..]);
      DecodeQuad(bytes[0], bytes[1], bytes[2], Encode(bytes[3..]));
      assert bytes == [bytes[0], bytes[1], bytes[2]] + bytes[3..];
    }
  }

  /** Four sextets as three bytes, and back. */
  lemma Regroup(v0: int, v1: int, v2: int, v3: int)
    requires 0 <= v0 < 64 && 0 <= v1 < 64 && 0 <= v2 < 64 && 0 <= v3 < 64
    ensures var a, b, c := v0 * 4 + v1 / 16, v1 % 16 * 16 + v2 / 4, v2 % 4 * 64 + v3;
            a / 4 == v0 && a % 4 * 16 + b / 16 == v1 && b % 16 * 4 + c / 64 == v2 && c % 64 == v3
  {
  }

  lemma EncodeQuad(s: string)
    requires |s| >= 4 && Value(s[0]) >= 0 && Value(s[1]) >= 0 && Value(s[2]) >= 0 && Value(s[3]) >= 0
    ensures Quad(First(s), Second(s), Value(s[2]) % 4 * 64 + Value(s[3])) == s[..4]
  {
    Regroup(Value(s[0]), Value(s[1]), Value(s[2]), Value(s[3]));
    CharOfValue(s[0]);
    CharOfValue(s[1]);
    CharOfValue(s[2]);
    CharOfValue(s[3]);
  }

  lemma EncodePair(s: string)
    requires |s| == 2 && Decode(s).Some?
    ensures Encode(Decode(s).value) == s
  {
    Regroup(Value(s[0]), Value(s[1]), 0, 0);
    CharOfValue(s[0]);
    CharOfValue(s[1]);
  }

  lemma TripleOfSextets(v0: int, v1: int, v2: int)
    requires 0 <= v0 < 64 && 0 <= v1 < 64 && 0 <= v2 < 64 && v2 % 4 == 0
    ensures Encode([v0 * 4 + v1 / 16, v1 % 16 * 16 + v2 / 4]) == [Char(v0), Char(v1), Char(v2)]
  {
    Regroup(v0, v1, v2, 0);
  }

  lemma EncodeTriple(s: string)
    requires |s| == 3 && Value(s[0]) >= 0 && Value(s[1]) >= 0 && Value(s[2]) >= 0 && Value(s[2]) % 4 == 0
    ensures Encode([First(s), Second(s)]) == s
  {
    TripleOfSextets(Value(s[0]), Value(s[1]), Value(s[2]));
    CharOfValue(s[0]);
    CharOfValue(s[1]);
    CharOfValue(s[2]);
    assert s == [s[0], s[1], s[2]];
  }

  /** Strictness: a text decodes only if it is the encoding of what it decodes to. */
  lemma {:induction false} EncodeDecode(s: string)
    requires Decode(s).Some?
    ensures Encode(Decode(s).value) == s
  {
    if |s| == 2 {
      EncodePair(s);
    } else if |s| == 3 {
      DecodeThree(s);
      EncodeTriple(s);
    } else if |s| > 3 {
      EncodeQuad(s);
      EncodeDecode(s[4..]);
      var bytes := Decode(s).value;
      assert bytes[3..] == Decode(s[4..]).value;
      assert s == s[..4] + s[4..];
    }
  }

  lemma {:induction false} DecodeIff(s: string, bytes: seq<Byte>)
    ensures Decode(s) == Some(bytes) <==> Encode(bytes) == s
  {
    DecodeEncode(bytes);
    if Decode(s) == Some(bytes) {
      EncodeDecode(s);
    }
  }
}
