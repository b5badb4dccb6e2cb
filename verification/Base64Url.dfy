/**
 Unpadded base64url, as sections 3.5 and 5 of RFC 4648 describe it, with the canonical form
 enforced: a text is decoded only if it is the encoding of what it decodes to.
 */
module Base64Url {
  import opened Common

  type byte = x: int | 0 <= x < 256
  type sextet = x: int | 0 <= x < 64

  /******* The alphabet *******/

  function Digit(s: sextet): (c: char)
    ensures Value(c) == Some(s) && c != '.'
  {
    if s < 26 then 'A' + s as char
    else if s < 52 then 'a' + (s - 26) as char
    else if s < 62 then '0' + (s - 52) as char
    else if s == 62 then '-' else '_'
  }

  function Value(c: char): (value: Option<sextet>) {
    if 'A' <= c <= 'Z' then Some((c as int - 'A' as int) as sextet)
    else if 'a' <= c <= 'z' then Some((c as int - 'a' as int + 26) as sextet)
    else if '0' <= c <= '9' then Some((c as int - '0' as int + 52) as sextet)
    else if c == '-' then Some(62)
    else if c == '_' then Some(63)
    else None
  }

  lemma DigitOfValue(c: char)
    requires Value(c).Some?
    ensures Digit(Value(c).value) == c
  {
  }

  function Digits(sextets: seq<sextet>): (text: string)
    ensures |text| == |sextets|
    ensures forall i | 0 <= i < |text| :: text[i] == Digit(sextets[i])
  {
    if sextets == [] then [] else [Digit(sextets[0])] + Digits(sextets[1..])
  }

  predicate InAlphabet(text: string) {
    forall i | 0 <= i < |text| :: Value(text[i]).Some?
  }

  function Values(text: string): (sextets: seq<sextet>)
    requires InAlphabet(text)
    ensures |sextets| == |text|
    ensures forall i | 0 <= i < |text| :: Value(text[i]) == Some(sextets[i])
  {
    if text == [] then [] else [Value(text[0]).value] + Values(text[1..])
  }

  /******* Bytes and sextets *******/

  function ToSextets(a: byte, b: byte, c: byte): (sextet, sextet, sextet, sextet) {
    (a as int / 4, a as int % 4 * 16 + b as int / 16, b as int % 16 * 4 + c as int / 64, c as int % 64)
  }

  function ToBytes(a: sextet, b: sextet, c: sextet, d: sextet): (byte, byte, byte) {
    (a as int * 4 + b as int / 16, b as int % 16 * 16 + c as int / 4, c as int % 4 * 64 + d as int)
  }

  lemma BitFields(high: int, low: int)
    ensures 0 <= low < 4 ==> (high * 4 + low) / 4 == high && (high * 4 + low) % 4 == low
    ensures 0 <= low < 16 ==> (high * 16 + low) / 16 == high && (high * 16 + low) % 16 == low
    ensures 0 <= low < 64 ==> (high * 64 + low) / 64 == high && (high * 64 + low) % 64 == low
  {
  }

  lemma BytesOfSextets(a: byte, b: byte, c: byte)
    ensures var q := ToSextets(a, b, c); ToBytes(q.0, q.1, q.2, q.3) == (a, b, c)
  {
    BitFields(a as int / 4, a as int % 4);
    BitFields(a as int % 4, b as int / 16);
    BitFields(b as int % 16, c as int / 64);
  }

  lemma SextetsOfBytes(a: sextet, b: sextet, c: sextet, d: sextet)
    ensures var bytes := ToBytes(a, b, c, d); ToSextets(bytes.0, bytes.1, bytes.2) == (a, b, c, d)
  {
    BitFields(a, b as int / 16);
    BitFields(b as int % 16, c as int / 4);
    BitFields(c as int % 4, d);
  }

  /** Three bytes make four digits; a last one or two are filled up with zero bits. */
  function Sextets(bytes: seq<byte>): seq<sextet> {
    if |bytes| == 0 then []
    else if |bytes| == 1 then var q := ToSextets(bytes[0], 0, 0); [q.0, q.1]
    else if |bytes| == 2 then var q := ToSextets(bytes[0], bytes[1], 0); [q.0, q.1, q.2]
    else var q := ToSextets(bytes[0], bytes[1], bytes[2]); [q.0, q.1, q.2, q.3] + Sextets(bytes[3..])
  }

  /** The bits of a last, incomplete byte are dropped. */
  function Bytes(sextets: seq<sextet>): seq<byte>
    requires |sextets| % 4 != 1
  {
    if |sextets| == 0 then []
    else if |sextets| == 2 then [ToBytes(sextets[0], sextets[1], 0, 0).0]
    else if |sextets| == 3 then var t := ToBytes(sextets[0], sextets[1], sextets[2], 0); [t.0, t.1]
    else var t := ToBytes(sextets[0], sextets[1], sextets[2], sextets[3]); [t.0, t.1, t.2] + Bytes(sextets[4..])
  }

  /** The bits that belong to no byte are zero. */
  predicate PadBitsAreZero(sextets: seq<sextet>) {
    && (|sextets| % 4 == 2 ==> sextets[|sextets| - 1] % 16 == 0)
    && (|sextets| % 4 == 3 ==> sextets[|sextets| - 1] % 4 == 0)
  }

  /** Bytes survive encoding, and their digits are four for three, rounded up. */
  lemma {:induction false} SextetsHoldTheBytes(bytes: seq<byte>)
    ensures |Sextets(bytes)| == (4 * |bytes| + 2) / 3 && |Sextets(bytes)| % 4 != 1
    ensures Bytes(Sextets(bytes)) == bytes
    decreases |bytes|
  {
    SextetsAreFourForThree(bytes);
    if |bytes| == 1 {
      BytesOfSextets(bytes[0], 0, 0);
    } else if |bytes| == 2 {
      BytesOfSextets(bytes[0], bytes[1], 0);
    } else if |bytes| >= 3 {
      BytesOfSextets(bytes[0], bytes[1], bytes[2]);
      SextetsHoldTheBytes(bytes[3..]);
      assert Sextets(bytes)[4..] == Sextets(bytes[3..]);
      assert bytes == [bytes[0], bytes[1], bytes[2]] + bytes[3..];
    }
  }

  lemma {:induction false} SextetsAreFourForThree(bytes: seq<byte>)
    ensures |Sextets(bytes)| == (4 * |bytes| + 2) / 3 && |Sextets(bytes)| % 4 != 1
    decreases |bytes|
  {
    if |bytes| >= 3 { SextetsAreFourForThree(bytes[3..]); }
  }

  /** A tail of two or three digits comes back exactly if its unused bits are zero. */
  lemma TailsComeBack(a: sextet, b: sextet, c: sextet)
    ensures Sextets(Bytes([a, b])) == [a, b] <==> b as int % 16 == 0
    ensures Sextets(Bytes([a, b, c])) == [a, b, c] <==> c as int % 4 == 0
  {
    BitFields(a, b as int / 16);
    BitFields(b as int % 16, c as int / 4);
    var one := ToBytes(a, b, 0, 0).0;
    var two := ToBytes(a, b, c, 0);
    assert Bytes([a, b]) == [one] && Bytes([a, b, c]) == [two.0, two.1];
    assert Sextets([one]) == [a, (b as int / 16 * 16) as sextet];
    assert Sextets([two.0, two.1]) == [a, b, (c as int / 4 * 4) as sextet];
  }

  lemma {:induction false} BytesHoldTheSextets(sextets: seq<sextet>)
    requires |sextets| % 4 != 1
    ensures Sextets(Bytes(sextets)) == sextets <==> PadBitsAreZero(sextets)
    decreases |sextets|
  {
    if |sextets| == 2 {
      TailsComeBack(sextets[0], sextets[1], 0);
      assert sextets == [sextets[0], sextets[1]];
    } else if |sextets| == 3 {
      TailsComeBack(sextets[0], sextets[1], sextets[2]);
      assert sextets == [sextets[0], sextets[1], sextets[2]];
    } else if |sextets| >= 4 {
      BytesHoldTheSextets(sextets[4..]);
      QuadFirst(sextets[0], sextets[1], sextets[2], sextets[3], sextets[4..]);
      assert sextets == [sextets[0], sextets[1], sextets[2], sextets[3]] + sextets[4..];
      assert sextets[..4] == [sextets[0], sextets[1], sextets[2], sextets[3]];
      FrontStays(sextets, Sextets(Bytes(sextets[4..])));
    }
  }

  lemma FrontStays(sextets: seq<sextet>, rest: seq<sextet>)
    requires |sextets| >= 4 && |sextets| % 4 != 1
    ensures sextets[..4] + rest == sextets <==> rest == sextets[4..]
    ensures PadBitsAreZero(sextets) <==> PadBitsAreZero(sextets[4..])
  {
    assert sextets == sextets[..4] + sextets[4..];
    assert (sextets[..4] + rest)[4..] == rest;
  }

  lemma BytesOfQuad(a: sextet, b: sextet, c: sextet, d: sextet, tail: seq<sextet>)
    requires |tail| % 4 != 1
    ensures
      var t := ToBytes(a, b, c, d);
      Bytes([a, b, c, d] + tail) == [t.0, t.1, t.2] + Bytes(tail)
  {
    assert ([a, b, c, d] + tail)[4..] == tail;
  }

  lemma QuadFirst(a: sextet, b: sextet, c: sextet, d: sextet, tail: seq<sextet>)
    requires |tail| % 4 != 1
    ensures Sextets(Bytes([a, b, c, d] + tail)) == [a, b, c, d] + Sextets(Bytes(tail))
  {
    BytesOfQuad(a, b, c, d, tail);
    TripleComesBack(a, b, c, d, Bytes(tail));
  }

  lemma TripleComesBack(a: sextet, b: sextet, c: sextet, d: sextet, rest: seq<byte>)
    ensures
      var t := ToBytes(a, b, c, d);
      Sextets([t.0, t.1, t.2] + rest) == [a, b, c, d] + Sextets(rest)
  {
    var t := ToBytes(a, b, c, d);
    assert ToSextets(t.0, t.1, t.2) == (a, b, c, d) by { SextetsOfBytes(a, b, c, d); }
    SextetsOfTriple(t.0, t.1, t.2, rest);
  }

  lemma SextetsOfTriple(a: byte, b: byte, c: byte, rest: seq<byte>)
    ensures
      var q := ToSextets(a, b, c);
      Sextets([a, b, c] + rest) == [q.0, q.1, q.2, q.3] + Sextets(rest)
  {
    assert ([a, b, c] + rest)[3..] == rest;
  }

  /******* The codec *******/

  function Encode(bytes: seq<byte>): string {
    Digits(Sextets(bytes))
  }

  /** A length of one more than a multiple of four has no decoding; anything not canonical is refused. */
  function Decode(text: string): Option<seq<byte>> {
    if text == [] || !InAlphabet(text) || |text| % 4 == 1 then None
    else if Encode(Bytes(Values(text))) != text then None
    else Some(Bytes(Values(text)))
  }

  lemma EncodingIsInAlphabet(bytes: seq<byte>)
    ensures InAlphabet(Encode(bytes)) && Values(Encode(bytes)) == Sextets(bytes)
    ensures |Encode(bytes)| == (4 * |bytes| + 2) / 3
    ensures forall i | 0 <= i < |Encode(bytes)| :: Encode(bytes)[i] != '.'
  {
    SextetsHoldTheBytes(bytes);
    assert forall i | 0 <= i < |Encode(bytes)| :: Value(Encode(bytes)[i]) == Some(Sextets(bytes)[i]);
  }

  /** A text decodes to some bytes exactly if it is their encoding and they are not empty. */
  lemma DecodeInvertsEncode(text: string, bytes: seq<byte>)
    ensures Decode(text) == Some(bytes) <==> bytes != [] && Encode(bytes) == text
  {
    EncodingIsInAlphabet(bytes);
    SextetsHoldTheBytes(bytes);
  }

  /** What is accepted, without mention of encoding: digits, a possible length and zero pad bits. */
  lemma DecodeAcceptsCanonicalText(text: string)
    ensures Decode(text).Some? <==>
      text != [] && InAlphabet(text) && |text| % 4 != 1 && PadBitsAreZero(Values(text))
  {
    if text != [] && InAlphabet(text) && |text| % 4 != 1 {
      var sextets := Values(text);
      BytesHoldTheSextets(sextets);
      var again := Encode(Bytes(sextets));
      EncodingIsInAlphabet(Bytes(sextets));
      if Sextets(Bytes(sextets)) == sextets {
        forall i | 0 <= i < |text|
          ensures again[i] == text[i]
        {
          DigitOfValue(text[i]);
        }
        assert again == text;
      }
    }
  }
}
