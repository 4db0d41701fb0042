/** Base 64 encoding as defined in section 4 of RFC 4648: the standard
    alphabet, groups of three bytes written as four characters, and `=`
    padding of a final partial group. */
module Base64 {
  import opened Wrappers
  import opened Bytes

  type Sextet = x: int | 0 <= x < 64

  /** A character of the standard alphabet (table 1 of RFC 4648). */
  predicate IsStandardChar(c: char)
  {
    'A' <= c <= 'Z' || 'a' <= c <= 'z' || '0' <= c <= '9' || c == '+' || c == '/'
  }

  /** A character of the URL- and filename-safe alphabet (section 5 of RFC 4648),
      which writes `-` and `_` for the values 62 and 63. */
  predicate IsUrlSafeChar(c: char)
  {
    'A' <= c <= 'Z' || 'a' <= c <= 'z' || '0' <= c <= '9' || c == '-' || c == '_'
  }

  predicate IsStandardString(s: string)
  {
    forall i :: 0 <= i < |s| ==> IsStandardChar(s[i])
  }

  predicate IsUrlSafeString(s: string)
  {
    forall i :: 0 <= i < |s| ==> IsUrlSafeChar(s[i])
  }

  /** A string made of whole four-character groups of the standard alphabet,
      without padding. */
  predicate IsUnpadded(s: string)
  {
    |s| % 4 == 0 && IsStandardString(s)
  }

  function IndexOf(c: char): Sextet
    requires IsStandardChar(c)
  {
    if 'A' <= c <= 'Z' then c as int - 'A' as int
    else if 'a' <= c <= 'z' then c as int - 'a' as int + 26
    else if '0' <= c <= '9' then c as int - '0' as int + 52
    else if c == '+' then 62
    else 63
  }

  function CharOf(x: Sextet): (c: char)
    ensures IsStandardChar(c) && IndexOf(c) == x
  {
    if x < 26 then (x + 'A' as int) as char
    else if x < 52 then (x - 26 + 'a' as int) as char
    else if x < 62 then (x - 52 + '0' as int) as char
    else if x == 62 then '+'
    else '/'
  }

  lemma CharOfIndexOf(c: char)
    requires IsStandardChar(c)
    ensures CharOf(IndexOf(c)) == c
  {
  }

  /** Three bytes as four sextets, most significant bits first. */
  function ToSextets(b0: Byte, b1: Byte, b2: Byte): (x: seq<Sextet>)
    ensures |x| == 4
  {
    [b0 / 4, b0 % 4 * 16 + b1 / 16, b1 % 16 * 4 + b2 / 64, b2 % 64]
  }

  /** Four sextets as three bytes. */
  function DecodeQuantum(c0: Sextet, c1: Sextet, c2: Sextet, c3: Sextet): (b: seq<Byte>)
    ensures |b| == 3
  {
    [c0 * 4 + c1 / 16, c1 % 16 * 16 + c2 / 4, c2 % 4 * 64 + c3]
  }

  function EncodeQuantum(b0: Byte, b1: Byte, b2: Byte): (q: string)
    ensures |q| == 4 && forall i :: 0 <= i < 4 ==> IsStandardChar(q[i])
  {
    var x := ToSextets(b0, b1, b2);
    [CharOf(x[0]), CharOf(x[1]), CharOf(x[2]), CharOf(x[3])]
  }

  /** Number of significant (non-padding) characters in the encoding of `n` bytes. */
  function SignificantLength(n: nat): nat
  {
    (4 * n + 2) / 3
  }

  /** The padded encoding of `data`. */
  function Encode(data: seq<Byte>): (s: string)
    ensures |s| == 4 * ((|data| + 2) / 3)
    ensures forall i :: 0 <= i < |s| ==>
      if i < SignificantLength(|data|) then IsStandardChar(s[i]) else s[i] == '='
    decreases |data|
  {
    if |data| == 0 then ""
    else if |data| == 1 then EncodeQuantum(data[0], 0, 0)[..2] + "=="
    else if |data| == 2 then EncodeQuantum(data[0], data[1], 0)[..3] + "="
    else EncodeQuantum(data[0], data[1], data[2]) + Encode(data[3..])
  }

  /** The last group of an encoding, which may carry one or two `=`. Bits of
      a partial group below the last whole byte are ignored. */
  function DecodeFinal(c0: char, c1: char, c2: char, c3: char): (r: Option<seq<Byte>>)
  {
    if IsStandardChar(c0) && IsStandardChar(c1) && IsStandardChar(c2) && IsStandardChar(c3) then
      Some(DecodeQuantum(IndexOf(c0), IndexOf(c1), IndexOf(c2), IndexOf(c3)))
    else if IsStandardChar(c0) && IsStandardChar(c1) && c2 == '=' && c3 == '=' then
      Some(DecodeQuantum(IndexOf(c0), IndexOf(c1), 0, 0)[..1])
    else if IsStandardChar(c0) && IsStandardChar(c1) && IsStandardChar(c2) && c3 == '=' then
      Some(DecodeQuantum(IndexOf(c0), IndexOf(c1), IndexOf(c2), 0)[..2])
    else
      None
  }

  /** Decoding; `None` for a string that is not a padded encoding. */
  function Decode(s: string): (r: Option<seq<Byte>>)
    ensures r.Some? ==> |r.value| <= |s| / 4 * 3
    ensures IsUnpadded(s) ==> r.Some? && |r.value| == |s| / 4 * 3
    decreases |s|
  {
    if |s| == 0 then Some([])
    else if |s| % 4 != 0 then None
    else if |s| == 4 then DecodeFinal(s[0], s[1], s[2], s[3])
    else if IsStandardChar(s[0]) && IsStandardChar(s[1]) && IsStandardChar(s[2]) && IsStandardChar(s[3]) then
      match Decode(s[4..])
      case None => None
      case Some(rest) => Some(DecodeQuantum(IndexOf(s[0]), IndexOf(s[1]), IndexOf(s[2]), IndexOf(s[3])) + rest)
    else
      None
  }

  lemma SextetsRoundTrip(b0: Byte, b1: Byte, b2: Byte)
    ensures var x := ToSextets(b0, b1, b2); DecodeQuantum(x[0], x[1], x[2], x[3]) == [b0, b1, b2]
  {
  }

  lemma SextetsRoundTripReverse(c0: Sextet, c1: Sextet, c2: Sextet, c3: Sextet)
    ensures var b := DecodeQuantum(c0, c1, c2, c3); ToSextets(b[0], b[1], b[2]) == [c0, c1, c2, c3]
  {
    var b := DecodeQuantum(c0, c1, c2, c3);
    assert b[0] / 4 == c0 && b[0] % 4 == c1 / 16;
    assert b[1] / 16 == c1 % 16 && b[1] % 16 == c2 / 4;
    assert b[2] / 64 == c2 % 4 && b[2] % 64 == c3;
  }

  lemma QuantumRoundTrip(b0: Byte, b1: Byte, b2: Byte)
    ensures var q := EncodeQuantum(b0, b1, b2);
      DecodeQuantum(IndexOf(q[0]), IndexOf(q[1]), IndexOf(q[2]), IndexOf(q[3])) == [b0, b1, b2]
  {
    SextetsRoundTrip(b0, b1, b2);
  }

  lemma QuantumRoundTripReverse(q: string)
    requires |q| == 4 && forall i :: 0 <= i < 4 ==> IsStandardChar(q[i])
    ensures var b := DecodeQuantum(IndexOf(q[0]), IndexOf(q[1]), IndexOf(q[2]), IndexOf(q[3]));
      EncodeQuantum(b[0], b[1], b[2]) == q
  {
    var c0, c1, c2, c3 := IndexOf(q[0]), IndexOf(q[1]), IndexOf(q[2]), IndexOf(q[3]);
    SextetsRoundTripReverse(c0, c1, c2, c3);
    CharOfIndexOf(q[0]);
    CharOfIndexOf(q[1]);
    CharOfIndexOf(q[2]);
    CharOfIndexOf(q[3]);
  }

  /** Decoding a whole group followed by more groups. */
  lemma DecodeLeadingGroup(q: string, t: string)
    requires |q| == 4 && forall i :: 0 <= i < 4 ==> IsStandardChar(q[i])
    requires |t| > 0
    ensures Decode(q + t) ==
      match Decode(t)
      case None => None
      case Some(rest) => Some(DecodeQuantum(IndexOf(q[0]), IndexOf(q[1]), IndexOf(q[2]), IndexOf(q[3])) + rest)
  {
    var s := q + t;
    assert s[4..] == t;
    assert s[0] == q[0] && s[1] == q[1] && s[2] == q[2] && s[3] == q[3];
    assert IsStandardChar(s[0]) && IsStandardChar(s[1]) && IsStandardChar(s[2]) && IsStandardChar(s[3]);
    if |t| % 4 != 0 {
      assert |s| % 4 != 0;
      assert Decode(t) == None;
    } else {
      assert |s| > 4 && |s| % 4 == 0;
    }
  }

  lemma DecodeSingleGroup(e: string)
    requires |e| == 4
    ensures Decode(e) == DecodeFinal(e[0], e[1], e[2], e[3])
  {
  }

  lemma FinalGroupOneSextets(b0: Byte)
    ensures var x := ToSextets(b0, 0, 0); DecodeQuantum(x[0], x[1], 0, 0)[..1] == [b0]
  {
    var x := ToSextets(b0, 0, 0);
    SextetsRoundTrip(b0, 0, 0);
  }

  lemma FinalGroupTwoSextets(b0: Byte, b1: Byte)
    ensures var x := ToSextets(b0, b1, 0); DecodeQuantum(x[0], x[1], x[2], 0)[..2] == [b0, b1]
  {
    var x := ToSextets(b0, b1, 0);
    SextetsRoundTrip(b0, b1, 0);
    assert x[3] == 0;
  }

  lemma FinalGroupOne(b0: Byte)
    ensures var q := EncodeQuantum(b0, 0, 0); DecodeFinal(q[0], q[1], '=', '=') == Some([b0])
  {
    var q := EncodeQuantum(b0, 0, 0);
    var x := ToSextets(b0, 0, 0);
    assert IndexOf(q[0]) == x[0] && IndexOf(q[1]) == x[1];
    FinalGroupOneSextets(b0);
  }

  lemma FinalGroupTwo(b0: Byte, b1: Byte)
    ensures var q := EncodeQuantum(b0, b1, 0); DecodeFinal(q[0], q[1], q[2], '=') == Some([b0, b1])
  {
    var q := EncodeQuantum(b0, b1, 0);
    var x := ToSextets(b0, b1, 0);
    assert IndexOf(q[0]) == x[0] && IndexOf(q[1]) == x[1] && IndexOf(q[2]) == x[2];
    FinalGroupTwoSextets(b0, b1);
  }

  lemma DecodePaddedOne(b0: Byte)
    ensures Decode(EncodeQuantum(b0, 0, 0)[..2] + "==") == Some([b0])
  {
    var q := EncodeQuantum(b0, 0, 0);
    var e := q[..2] + "==";
    assert e[0] == q[0] && e[1] == q[1] && e[2] == '=' && e[3] == '=';
    DecodeSingleGroup(e);
    FinalGroupOne(b0);
  }

  lemma DecodePaddedTwo(b0: Byte, b1: Byte)
    ensures Decode(EncodeQuantum(b0, b1, 0)[..3] + "=") == Some([b0, b1])
  {
    var q := EncodeQuantum(b0, b1, 0);
    var e := q[..3] + "=";
    assert e[0] == q[0] && e[1] == q[1] && e[2] == q[2] && e[3] == '=';
    DecodeSingleGroup(e);
    FinalGroupTwo(b0, b1);
  }

  lemma DecodeWholeGroup(b0: Byte, b1: Byte, b2: Byte)
    ensures Decode(EncodeQuantum(b0, b1, b2)) == Some([b0, b1, b2])
  {
    var q := EncodeQuantum(b0, b1, b2);
    DecodeSingleGroup(q);
    QuantumRoundTrip(b0, b1, b2);
  }

  /** Decoding inverts encoding, for every byte sequence. */
  lemma {:induction false} DecodeEncode(data: seq<Byte>)
    ensures Decode(Encode(data)) == Some(data)
    decreases |data|
  {
    if |data| == 1 {
      assert data == [data[0]];
      DecodePaddedOne(data[0]);
    } else if |data| == 2 {
      assert data == [data[0], data[1]];
      DecodePaddedTwo(data[0], data[1]);
    } else if |data| == 3 {
      assert data == [data[0], data[1], data[2]];
      var q := EncodeQuantum(data[0], data[1], data[2]);
      assert Encode(data) == q + "" == q;
      DecodeWholeGroup(data[0], data[1], data[2]);
    } else if |data| > 3 {
      assert data == [data[0], data[1], data[2]] + data[3..];
      var q := EncodeQuantum(data[0], data[1], data[2]);
      QuantumRoundTrip(data[0], data[1], data[2]);
      DecodeEncode(data[3..]);
      DecodeLeadingGroup(q, Encode(data[3..]));
    }
  }

  lemma EncodeWholeGroup(b: seq<Byte>)
    requires |b| == 3
    ensures Encode(b) == EncodeQuantum(b[0], b[1], b[2])
  {
    assert b[3..] == [];
  }

  lemma EncodeLeadingGroup(b: seq<Byte>, rest: seq<Byte>)
    requires |b| == 3
    ensures Encode(b + rest) == EncodeQuantum(b[0], b[1], b[2]) + Encode(rest)
  {
    var d := b + rest;
    assert d[3..] == rest;
    assert d[0] == b[0] && d[1] == b[1] && d[2] == b[2];
  }

  /** An unpadded string is one standard group followed by an unpadded rest. */
  lemma UnpaddedParts(s: string)
    requires IsUnpadded(s) && |s| > 0
    ensures |s[..4]| == 4 && forall i :: 0 <= i < 4 ==> IsStandardChar(s[..4][i])
    ensures IsUnpadded(s[4..]) && s == s[..4] + s[4..]
  {
  }

  /** A single group round-trips through decoding. */
  lemma EncodeDecodeGroup(q: string)
    requires |q| == 4 && forall i :: 0 <= i < 4 ==> IsStandardChar(q[i])
    ensures Decode(q).Some? && Encode(Decode(q).value) == q
  {
    var b := DecodeQuantum(IndexOf(q[0]), IndexOf(q[1]), IndexOf(q[2]), IndexOf(q[3]));
    QuantumRoundTripReverse(q);
    assert Decode(q) == Some(b);
    EncodeWholeGroup(b);
  }

  /** A leading group round-trips when the rest does. */
  lemma EncodeDecodeLeadingGroup(q: string, t: string)
    requires |q| == 4 && forall i :: 0 <= i < 4 ==> IsStandardChar(q[i])
    requires |t| > 0 && Decode(t).Some? && Encode(Decode(t).value) == t
    ensures Decode(q + t).Some? && Encode(Decode(q + t).value) == q + t
  {
    var b := DecodeQuantum(IndexOf(q[0]), IndexOf(q[1]), IndexOf(q[2]), IndexOf(q[3]));
    QuantumRoundTripReverse(q);
    DecodeLeadingGroup(q, t);
    EncodeLeadingGroup(b, Decode(t).value);
  }

  /** Encoding inverts decoding on unpadded strings. */
  lemma {:induction false} EncodeDecode(s: string)
    requires IsUnpadded(s)
    ensures Decode(s).Some? && Encode(Decode(s).value) == s
    decreases |s|
  {
    if |s| > 0 {
      UnpaddedParts(s);
      var q, t := s[..4], s[4..];
      if |t| == 0 {
        assert s == q;
        EncodeDecodeGroup(q);
      } else {
        EncodeDecode(t);
        EncodeDecodeLeadingGroup(q, t);
      }
    }
  }

  /** The test vectors of section 10 of RFC 4648 for "f", "fo" and "foo". */
  lemma EncodeOneByteVector()
    ensures Encode([0x66]) == "Zg=="
  {
    var d: seq<Byte> := [0x66];
    assert Encode(d) == EncodeQuantum(0x66, 0, 0)[..2] + "==";
    assert ToSextets(0x66, 0, 0)[0] == 25;
    assert ToSextets(0x66, 0, 0)[1] == 32;
    assert CharOf(25) == 'Z';
    assert CharOf(32) == 'g';
    assert EncodeQuantum(0x66, 0, 0)[..2] == "Zg";
  }

  lemma EncodeTwoByteVector()
    ensures Encode([0x66, 0x6f]) == "Zm8="
  {
    assert ToSextets(0x66, 0x6f, 0) == [25, 38, 60, 0];
    assert CharOf(25) == 'Z';
    assert CharOf(38) == 'm';
    assert CharOf(60) == '8';
    assert CharOf(0) == 'A';
    assert EncodeQuantum(0x66, 0x6f, 0) == "Zm8A";
    assert "Zm8A"[..3] == "Zm8";
  }

  lemma EncodeThreeByteVector()
    ensures Encode([0x66, 0x6f, 0x6f]) == "Zm9v"
  {
    assert ToSextets(0x66, 0x6f, 0x6f) == [25, 38, 61, 47];
    assert CharOf(25) == 'Z';
    assert CharOf(38) == 'm';
    assert CharOf(61) == '9';
    assert CharOf(47) == 'v';
    assert Encode([0x66, 0x6f, 0x6f][3..]) == "";
  }
}
