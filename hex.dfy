/** Base 16 encoding as defined in section 8 of RFC 4648: each byte as two
    hexadecimal digits, high nibble first. The encoder writes lower-case
    digits; the decoder accepts both cases. */
module Hex {
  import opened Wrappers
  import opened Bytes

  predicate IsHexDigit(c: char)
  {
    '0' <= c <= '9' || 'a' <= c <= 'f' || 'A' <= c <= 'F'
  }

  predicate IsLowerHexDigit(c: char)
  {
    '0' <= c <= '9' || 'a' <= c <= 'f'
  }

  predicate IsHexString(s: string)
  {
    forall i :: 0 <= i < |s| ==> IsHexDigit(s[i])
  }

  predicate IsLowerHexString(s: string)
  {
    forall i :: 0 <= i < |s| ==> IsLowerHexDigit(s[i])
  }

  function DigitValue(c: char): (x: int)
    requires IsHexDigit(c)
    ensures 0 <= x < 16
  {
    if '0' <= c <= '9' then c as int - '0' as int
    else if 'a' <= c <= 'f' then c as int - 'a' as int + 10
    else c as int - 'A' as int + 10
  }

  function LowerDigit(x: int): (c: char)
    requires 0 <= x < 16
    ensures IsLowerHexDigit(c) && DigitValue(c) == x
  {
    if x < 10 then (x + '0' as int) as char else (x - 10 + 'a' as int) as char
  }

  /** The lower-case form of a hexadecimal digit: `A`-`F` become `a`-`f`. */
  function LowerChar(c: char): (l: char)
    requires IsHexDigit(c)
    ensures IsLowerHexDigit(l) && DigitValue(l) == DigitValue(c)
    ensures IsLowerHexDigit(c) ==> l == c
  {
    if 'A' <= c <= 'F' then (c as int - 'A' as int + 'a' as int) as char else c
  }

  /** A hexadecimal string with every upper-case digit made lower-case. */
  function Lowercase(s: string): (r: string)
    requires IsHexString(s)
    ensures |r| == |s| && IsLowerHexString(r)
    ensures forall i :: 0 <= i < |s| ==> DigitValue(r[i]) == DigitValue(s[i])
    ensures IsLowerHexString(s) ==> r == s
  {
    seq(|s|, i requires 0 <= i < |s| => LowerChar(s[i]))
  }

  lemma LowerDigitValue(c: char)
    requires IsHexDigit(c)
    ensures LowerDigit(DigitValue(c)) == LowerChar(c)
  {
  }

  /** `buf.toString('hex')`. */
  function Encode(data: seq<Byte>): (s: string)
    ensures |s| == 2 * |data|
    ensures IsLowerHexString(s)
  {
    if |data| == 0 then "" else [LowerDigit(data[0] / 16), LowerDigit(data[0] % 16)] + Encode(data[1..])
  }

  /** Decoding; `None` unless `s` is an even number of hexadecimal digits. */
  function Decode(s: string): (r: Option<seq<Byte>>)
    ensures r.Some? <==> |s| % 2 == 0 && IsHexString(s)
    ensures r.Some? ==> 2 * |r.value| == |s|
    decreases |s|
  {
    if |s| == 0 then Some([])
    else if |s| == 1 || !IsHexDigit(s[0]) || !IsHexDigit(s[1]) then None
    else
      match Decode(s[2..])
      case None => None
      case Some(rest) => Some([DigitValue(s[0]) * 16 + DigitValue(s[1])] + rest)
  }

  /** Decoding inverts encoding. */
  lemma {:induction false} DecodeEncode(data: seq<Byte>)
    ensures Decode(Encode(data)) == Some(data)
    decreases |data|
  {
    if |data| > 0 {
      var s := Encode(data);
      DecodeEncode(data[1..]);
      assert s[2..] == Encode(data[1..]);
      assert data == [data[0]] + data[1..];
    }
  }

  /** A byte is its high nibble times 16 plus its low nibble. */
  lemma Nibbles(h: int, l: int)
    requires 0 <= h < 16 && 0 <= l < 16
    ensures (h * 16 + l) / 16 == h && (h * 16 + l) % 16 == l
  {
  }

  lemma EncodeFirst(b: Byte, rest: seq<Byte>)
    ensures Encode([b] + rest) == [LowerDigit(b / 16), LowerDigit(b % 16)] + Encode(rest)
  {
    assert ([b] + rest)[1..] == rest;
  }

  lemma LowercaseFirst(s: string)
    requires |s| >= 2 && IsHexString(s)
    ensures Lowercase(s) == [LowerChar(s[0]), LowerChar(s[1])] + Lowercase(s[2..])
  {
    var l, t := Lowercase(s), Lowercase(s[2..]);
    assert forall i :: 0 <= i < |t| ==> t[i] == l[i + 2];
  }

  /** Encoding inverts decoding up to case: the digits come back lower-case. */
  lemma {:induction false} EncodeDecode(s: string)
    requires |s| % 2 == 0 && IsHexString(s)
    ensures Decode(s).Some? && Encode(Decode(s).value) == Lowercase(s)
    ensures IsLowerHexString(s) ==> Encode(Decode(s).value) == s
    decreases |s|
  {
    if |s| > 0 {
      var h, l := DigitValue(s[0]), DigitValue(s[1]);
      Nibbles(h, l);
      var b: Byte := h * 16 + l;
      EncodeDecode(s[2..]);
      var rest := Decode(s[2..]).value;
      assert Decode(s) == Some([b] + rest);
      EncodeFirst(b, rest);
      LowerDigitValue(s[0]);
      LowerDigitValue(s[1]);
      LowercaseFirst(s);
    }
  }

  /** Decoding ignores the case of the digits. */
  lemma DecodeIgnoresCase(s: string)
    requires IsHexString(s)
    ensures Decode(s) == Decode(Lowercase(s))
  {
    if |s| % 2 == 0 {
      EncodeDecode(s);
      DecodeEncode(Decode(s).value);
    }
  }

  /** Decoding a leading digit pair in front of a decoded rest. */
  lemma DecodeFirst(s: string, b: Byte, rest: seq<Byte>)
    requires |s| >= 2 && IsHexDigit(s[0]) && IsHexDigit(s[1])
    requires DigitValue(s[0]) * 16 + DigitValue(s[1]) == b && Decode(s[2..]) == Some(rest)
    ensures Decode(s) == Some([b] + rest)
  {
  }

  /** The base16 test vector of section 10 of RFC 4648, "foobar", decoded
      from upper-case digits. */
  lemma DecodeFoobarVector()
    ensures Decode("666F6F626172") == Some([0x66, 0x6f, 0x6f, 0x62, 0x61, 0x72])
  {
    assert DigitValue('1') == 1 && DigitValue('2') == 2 && DigitValue('6') == 6;
    assert DigitValue('7') == 7 && DigitValue('F') == 15;
    var r: seq<Byte> := [];
    assert Decode("") == Some(r);
    assert "72"[2..] == "";
    DecodeFirst("72", 0x72, r);
    r := [0x72] + r;
    assert "6172"[2..] == "72";
    DecodeFirst("6172", 0x61, r);
    r := [0x61] + r;
    assert "626172"[2..] == "6172";
    DecodeFirst("626172", 0x62, r);
    r := [0x62] + r;
    assert "6F626172"[2..] == "626172";
    DecodeFirst("6F626172", 0x6f, r);
    r := [0x6f] + r;
    assert "6F6F626172"[2..] == "6F626172";
    DecodeFirst("6F6F626172", 0x6f, r);
    r := [0x6f] + r;
    assert "666F6F626172"[2..] == "6F6F626172";
    DecodeFirst("666F6F626172", 0x66, r);
    r := [0x66] + r;
    assert r == [0x66, 0x6f, 0x6f, 0x62, 0x61, 0x72];
  }

  /** The same vector encoded: the digits come out lower-case. */
  lemma EncodeFoobarVector()
    ensures Encode([0x66, 0x6f, 0x6f, 0x62, 0x61, 0x72]) == "666f6f626172"
  {
    assert LowerDigit(6) == '6' && LowerDigit(15) == 'f' && LowerDigit(2) == '2';
    assert LowerDigit(1) == '1' && LowerDigit(7) == '7';
    var r: seq<Byte> := [];
    EncodeFirst(0x72, r);
    r := [0x72] + r;
    assert Encode(r) == "72";
    EncodeFirst(0x61, r);
    r := [0x61] + r;
    assert Encode(r) == "6172";
    EncodeFirst(0x62, r);
    r := [0x62] + r;
    assert Encode(r) == "626172";
    EncodeFirst(0x6f, r);
    r := [0x6f] + r;
    assert Encode(r) == "6f626172";
    EncodeFirst(0x6f, r);
    r := [0x6f] + r;
    assert Encode(r) == "6f6f626172";
    EncodeFirst(0x66, r);
    r := [0x66] + r;
    assert r == [0x66, 0x6f, 0x6f, 0x62, 0x61, 0x72];
  }
}
