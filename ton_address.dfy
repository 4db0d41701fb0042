/** The TON address codec. A raw address is `<workchain>:<64 hex digits>`; a
    user-friendly address is the unpadded URL-safe Base64 form (48 characters)
    of a 36-byte payload `[tag][flag][32-byte account hash][CRC-16]`.

    Conversions that fail yield `None`, the source's `null`. */
module TonAddress {
  import opened Wrappers
  import opened Bytes
  import opened JsString
  import Crc16
  import Base64
  import Hex

  /** `AddressType`: the two forms an address can be written in. */
  datatype AddressType = Raw | UserFriendly

  /** Tag byte written for workchain "0"; every other workchain text gets `OtherTag`. */
  const BasechainTag: Byte := 0x51
  const OtherTag: Byte := 0x71
  /** Flag byte; always 0 (non-bounceable). */
  const NonBounceableFlag: Byte := 0

  /** The sample pair the simplified conversion answers without computing. */
  const SampleRaw: string := "0:189226288820c4a3fff71c20d02e040e7c167f349846b1cf3bf05176a2aea142"
  const SampleUserFriendly: string := "UQAYkiYoiCDEo__3HCDQLgQOfBZ_NJhGsc878FF2oq6hQvUB"
  const Placeholder: string := "[Conversion requires TON SDK]"

  // ---------------------------------------------------------------------
  // Validators

  predicate IsDecimalDigit(c: char)
  {
    '0' <= c <= '9'
  }

  /** Workchain texts the raw grammar admits: one decimal digit, optionally
      preceded by `-`. */
  predicate IsWorkchainText(w: string)
  {
    (|w| == 1 && IsDecimalDigit(w[0])) || (|w| == 2 && w[0] == '-' && IsDecimalDigit(w[1]))
  }

  /** The regular expression `^-?[0-9]:([a-fA-F0-9]{64})$`. */
  predicate IsValidRawAddress(address: string): (valid: bool)
    ensures valid ==>
      && (|address| == 66 || |address| == 67)
      && address[|address| - 65] == ':'
      && Hex.IsHexString(address[|address| - 64..])
  {
    var k := if |address| > 0 && address[0] == '-' then 1 else 0;
    |address| == k + 66 && IsDecimalDigit(address[k]) && address[k + 1] == ':'
    && Hex.IsHexString(address[k + 2..])
  }

  /** The regular expression `^[A-Za-z0-9_-]{48}$`. */
  predicate IsValidUserFriendlyAddress(address: string): (valid: bool)
    ensures valid ==> '+' !in address && '/' !in address && '=' !in address
  {
    |address| == 48 && Base64.IsUrlSafeString(address)
  }

  /** A raw address as the decoder writes it: workchain "0" or "-1" and
      lower-case hexadecimal digits. */
  predicate IsCanonicalRawAddress(address: string)
  {
    || (|address| == 66 && address[..2] == "0:" && Hex.IsLowerHexString(address[2..]))
    || (|address| == 67 && address[..3] == "-1:" && Hex.IsLowerHexString(address[3..]))
  }

  predicate IsValidAs(address: string, t: AddressType)
  {
    match t
    case Raw => IsValidRawAddress(address)
    case UserFriendly => IsValidUserFriendlyAddress(address)
  }

  /** A raw address is valid exactly when `split(':')` cuts it into a
      workchain text and 64 hexadecimal digits: in particular it holds exactly
      one `:` and has 66 or 67 characters. */
  lemma RawAddressParts(address: string)
    ensures var parts := Split(address, ':');
      IsValidRawAddress(address) <==>
        |parts| == 2 && IsWorkchainText(parts[0]) && |parts[1]| == 64 && Hex.IsHexString(parts[1])
    ensures IsValidRawAddress(address) ==> |address| == 66 || |address| == 67
  {
    var parts := Split(address, ':');
    if IsValidRawAddress(address) {
      var k := if address[0] == '-' then 1 else 0;
      var w, h := address[..k + 1], address[k + 2..];
      assert address == w + [':'] + h;
      assert ':' !in h by {
        forall i | 0 <= i < |h| ensures h[i] != ':' {
          assert Hex.IsHexDigit(h[i]);
        }
      }
      SplitAtFirst(w, h, ':');
      SplitWithoutSeparator(h, ':');
      assert parts == [w, h];
    }
    if |parts| == 2 && IsWorkchainText(parts[0]) && |parts[1]| == 64 && Hex.IsHexString(parts[1]) {
      assert Join(parts[1..], ':') == parts[1];
      assert address == parts[0] + [':'] + parts[1];
    }
  }

  /** The canonical raw addresses are valid, and split into "0" or "-1" and
      their 64 lower-case digits. */
  lemma CanonicalRawAddressParts(address: string)
    requires IsCanonicalRawAddress(address)
    ensures IsValidRawAddress(address)
    ensures var parts := Split(address, ':');
      |parts| == 2 && (parts[0] == "0" || parts[0] == "-1") && |parts[1]| == 64
      && Hex.IsLowerHexString(parts[1])
  {
    var k := if address[0] == '-' then 1 else 0;
    var w, h := address[..k + 1], address[k + 2..];
    assert address == w + [':'] + h;
    assert ':' !in h by {
      forall i | 0 <= i < |h| ensures h[i] != ':' {
        assert Hex.IsLowerHexDigit(h[i]);
      }
    }
    SplitAtFirst(w, h, ':');
    SplitWithoutSeparator(h, ':');
    RawAddressParts(address);
  }

  // ---------------------------------------------------------------------
  // Payload layout and its Base64 form

  /** The tag byte: 0x51 for the workchain text "0", 0x71 for any other. */
  function Tag(workchain: string): (tag: Byte)
    ensures tag == BasechainTag <==> workchain == "0"
    ensures tag == BasechainTag || tag == OtherTag
  {
    if workchain == "0" then BasechainTag else OtherTag
  }

  /** `[tag][flag][hash]` followed by the CRC-16 of those bytes. */
  function BuildPayload(workchain: string, hash: seq<Byte>): (payload: seq<Byte>)
    ensures |payload| == |hash| + 4
  {
    var prefix := [Tag(workchain), NonBounceableFlag] + hash;
    prefix + Crc16.Checksum(prefix)
  }

  /** A payload with a known tag and a correct checksum over its first 34
      bytes. */
  predicate IsCheckedPayload(payload: seq<Byte>)
  {
    && |payload| == 36
    && (payload[0] == BasechainTag || payload[0] == OtherTag)
    && payload[34..] == Crc16.Checksum(payload[..34])
  }

  /** A payload the encoder can have produced: checked, and flag 0. */
  predicate IsWellFormedPayload(payload: seq<Byte>)
  {
    IsCheckedPayload(payload) && payload[1] == NonBounceableFlag
  }

  /** `.replace(/\+/g, '-').replace(/\//g, '_')` */
  function ToUrlSafe(s: string): (r: string)
    ensures |r| == |s| && '+' !in r && '/' !in r
    ensures forall i :: 0 <= i < |s| && s[i] == '+' ==> r[i] == '-'
    ensures forall i :: 0 <= i < |s| && s[i] == '/' ==> r[i] == '_'
    ensures forall i :: 0 <= i < |s| && s[i] != '+' && s[i] != '/' ==> r[i] == s[i]
  {
    ReplaceAll(ReplaceAll(s, '+', '-'), '/', '_')
  }

  /** `.replace(/-/g, '+').replace(/_/g, '/')` */
  function FromUrlSafe(s: string): (r: string)
    ensures |r| == |s| && '-' !in r && '_' !in r
    ensures forall i :: 0 <= i < |s| && s[i] == '-' ==> r[i] == '+'
    ensures forall i :: 0 <= i < |s| && s[i] == '_' ==> r[i] == '/'
    ensures forall i :: 0 <= i < |s| && s[i] != '-' && s[i] != '_' ==> r[i] == s[i]
  {
    ReplaceAll(ReplaceAll(s, '-', '+'), '_', '/')
  }

  lemma UrlSafeOfStandard(s: string)
    requires Base64.IsStandardString(s)
    ensures Base64.IsUrlSafeString(ToUrlSafe(s)) && FromUrlSafe(ToUrlSafe(s)) == s
  {
    var t := ToUrlSafe(s);
    assert forall i :: 0 <= i < |s| ==> FromUrlSafe(t)[i] == s[i];
  }

  lemma StandardOfUrlSafe(s: string)
    requires Base64.IsUrlSafeString(s)
    ensures Base64.IsStandardString(FromUrlSafe(s)) && ToUrlSafe(FromUrlSafe(s)) == s
  {
    var t := FromUrlSafe(s);
    assert forall i :: 0 <= i < |s| ==> ToUrlSafe(t)[i] == s[i];
  }

  /** How many characters a string of length `n` lacks to end on a whole
      four-character group. */
  function Missing(n: nat): (k: nat)
    ensures k < 4 && (n + k) % 4 == 0
    ensures k == 0 <==> n % 4 == 0
  {
    if n % 4 == 0 then 0 else 4 - n % 4
  }

  lemma MissingStep(n: nat)
    requires n % 4 != 0
    ensures Missing(n + 1) == Missing(n) - 1
  {
    var q := n / 4;
    assert n == 4 * q + n % 4;
    if n % 4 == 3 {
      assert n + 1 == 4 * (q + 1);
    } else {
      assert n + 1 == 4 * q + (n % 4 + 1);
    }
  }

  /** `s` with `=` appended until its length is a multiple of four. */
  function Repad(s: string): (r: string)
    ensures |r| == |s| + Missing(|s|) && s <= r
    ensures forall i :: |s| <= i < |r| ==> r[i] == '='
    decreases Missing(|s|)
  {
    if |s| % 4 == 0 then s
    else
      MissingStep(|s|);
      Repad(s + "=")
  }

  /** The 36-byte payload as a user-friendly string: Base64, made URL-safe,
      trailing `=` removed. */
  function EncodePayload(payload: seq<Byte>): (address: string)
    ensures |payload| == 36 ==> IsValidUserFriendlyAddress(address)
  {
    var base64String := Base64.Encode(payload);
    var urlSafe := ToUrlSafe(base64String);
    if |payload| == 36 then
      EncodingOfPayload(payload);
      UrlSafeOfStandard(base64String);
      assert urlSafe[47] != '=';
      StripTrailing(urlSafe, '=')
    else
      StripTrailing(urlSafe, '=')
  }

  /** The bytes a user-friendly string carries: the URL-safe characters
      mapped back, padding restored, Base64-decoded. */
  function PayloadOf(address: string): (r: Option<seq<Byte>>)
    ensures IsValidUserFriendlyAddress(address) ==> r.Some? && |r.value| == 36
  {
    if IsValidUserFriendlyAddress(address) then
      UrlSafeAddressUnpadded(address);
      Base64.Decode(Repad(FromUrlSafe(address)))
    else
      Base64.Decode(Repad(FromUrlSafe(address)))
  }

  /** For 36-byte payloads the Base64 encoding is 48 characters of the
      standard alphabet, without padding. */
  lemma EncodingOfPayload(payload: seq<Byte>)
    requires |payload| == 36
    ensures var e := Base64.Encode(payload);
      |e| == 48 && Base64.IsStandardString(e) && Base64.IsUnpadded(e)
  {
    var e := Base64.Encode(payload);
    assert Base64.SignificantLength(36) == 48;
    assert forall i :: 0 <= i < |e| ==> Base64.IsStandardChar(e[i]);
  }

  /** Encoding a 36-byte payload gives a valid user-friendly address, from
      which the payload is recovered. */
  lemma PayloadOfEncodePayload(payload: seq<Byte>)
    requires |payload| == 36
    ensures IsValidUserFriendlyAddress(EncodePayload(payload))
    ensures PayloadOf(EncodePayload(payload)) == Some(payload)
  {
    var e := Base64.Encode(payload);
    EncodingOfPayload(payload);
    UrlSafeOfStandard(e);
    var u := ToUrlSafe(e);
    assert u[47] != '=';
    assert StripTrailing(u, '=') == u;
    Base64.DecodeEncode(payload);
  }

  /** Mapped back to the standard alphabet, a valid user-friendly address is
      whole Base64 groups, so the padding loop adds nothing. */
  lemma UrlSafeAddressUnpadded(address: string)
    requires IsValidUserFriendlyAddress(address)
    ensures Base64.IsUnpadded(FromUrlSafe(address))
    ensures Repad(FromUrlSafe(address)) == FromUrlSafe(address)
    ensures ToUrlSafe(FromUrlSafe(address)) == address
  {
    StandardOfUrlSafe(address);
  }

  lemma NothingToStrip(address: string)
    requires IsValidUserFriendlyAddress(address)
    ensures StripTrailing(address, '=') == address
  {
    assert address[47] != '=';
  }

  /** Every valid user-friendly address is the encoding of the 36 bytes it
      carries; its 48 characters need no padding. */
  lemma EncodePayloadOfPayloadOf(address: string)
    requires IsValidUserFriendlyAddress(address)
    ensures Repad(FromUrlSafe(address)) == FromUrlSafe(address)
    ensures PayloadOf(address).Some? && |PayloadOf(address).value| == 36
    ensures EncodePayload(PayloadOf(address).value) == address
  {
    UrlSafeAddressUnpadded(address);
    NothingToStrip(address);
    Base64.EncodeDecode(FromUrlSafe(address));
  }

  /** The user-friendly validator accepts exactly the encodings of 36-byte
      payloads; none of them contains `+`, `/` or `=`. */
  lemma UserFriendlyGrammar(address: string)
    ensures IsValidUserFriendlyAddress(address) <==>
      exists payload: seq<Byte> :: |payload| == 36 && EncodePayload(payload) == address
    ensures IsValidUserFriendlyAddress(address) ==>
      '+' !in address && '/' !in address && '=' !in address
  {
    if IsValidUserFriendlyAddress(address) {
      EncodePayloadOfPayloadOf(address);
      var payload := PayloadOf(address).value;
      assert |payload| == 36 && EncodePayload(payload) == address;
    }
    if exists payload: seq<Byte> :: |payload| == 36 && EncodePayload(payload) == address {
      var payload: seq<Byte> :| |payload| == 36 && EncodePayload(payload) == address;
      PayloadOfEncodePayload(payload);
    }
  }

  // ---------------------------------------------------------------------
  // Raw to user-friendly

  /** `rawToUserFriendly`: `None` exactly when the raw validator fails,
      otherwise a valid user-friendly address. */
  function RawToUserFriendly(address: string): (r: Option<string>)
    ensures r.Some? <==> IsValidRawAddress(address)
    ensures r.Some? ==> IsValidUserFriendlyAddress(r.value)
  {
    if !IsValidRawAddress(address) then None
    else
      RawAddressParts(address);
      var parts := Split(address, ':');
      var workchain, hexPart := parts[0], parts[1];
      match Hex.Decode(hexPart)
      case None => None
      case Some(addressBytes) =>
        var payload := BuildPayload(workchain, addressBytes);
        PayloadOfEncodePayload(payload);
        Some(EncodePayload(payload))
  }

  /** The layout of the encoded payload: tag 0x51 exactly for workchain "0"
      (0x71 for every other text, "-1", "5" and "-0" alike), flag 0, the
      decoded hash, and the CRC-16 of the first 34 bytes. */
  lemma RawToUserFriendlyLayout(address: string)
    requires IsValidRawAddress(address)
    ensures var parts := Split(address, ':');
      && |parts| == 2
      && RawToUserFriendly(address).Some?
      && var payload := PayloadOf(RawToUserFriendly(address).value);
      && payload.Some?
      && IsWellFormedPayload(payload.value)
      && (payload.value[0] == BasechainTag <==> parts[0] == "0")
      && Hex.Decode(parts[1]) == Some(payload.value[2..34])
  {
    RawAddressParts(address);
    var parts := Split(address, ':');
    var hash := Hex.Decode(parts[1]).value;
    var payload := BuildPayload(parts[0], hash);
    PayloadOfEncodePayload(payload);
    assert payload[..34] == [Tag(parts[0]), NonBounceableFlag] + hash;
    assert payload[2..34] == hash;
  }

  // ---------------------------------------------------------------------
  // User-friendly to raw

  /** The raw text the decoder writes for a buffer: "0" when the first byte
      is 0x51 and "-1" otherwise (also when there is no first byte), then the
      hexadecimal form of bytes 2 to 34. The tag is not checked against
      0x71, and neither the flag nor the checksum is looked at. */
  function RawOfBuffer(buffer: seq<Byte>): (raw: string)
    ensures |raw| > 0 && (raw[0] == '0' <==> |buffer| > 0 && buffer[0] == BasechainTag)
    ensures |buffer| >= 34 ==> IsCanonicalRawAddress(raw)
  {
    var workchain := if |buffer| > 0 && buffer[0] == BasechainTag then "0" else "-1";
    var h := Hex.Encode(Slice(buffer, 2, 34));
    var raw := workchain + ":" + h;
    assert workchain == "0" ==> raw[..2] == "0:" && raw[2..] == h;
    assert workchain == "-1" ==> raw[..3] == "-1:" && raw[3..] == h;
    raw
  }

  /** What `userFriendlyToRaw` computes: `None` exactly when the
      user-friendly validator fails, otherwise a canonical raw address. */
  function RawFromUserFriendly(address: string): (r: Option<string>)
    ensures r.Some? <==> IsValidUserFriendlyAddress(address)
    ensures r.Some? ==> IsValidRawAddress(r.value) && IsCanonicalRawAddress(r.value)
  {
    if !IsValidUserFriendlyAddress(address) then None
    else
      EncodePayloadOfPayloadOf(address);
      match PayloadOf(address)
      case None => None
      case Some(buffer) =>
        CanonicalRawAddressParts(RawOfBuffer(buffer));
        Some(RawOfBuffer(buffer))
  }

  /** The padding loop of `userFriendlyToRaw`: appends `=` while the length
      is not a multiple of four. */
  method Pad(s: string) returns (padded: string)
    ensures padded == Repad(s)
  {
    padded := s;
    while |padded| % 4 != 0
      invariant Repad(padded) == Repad(s)
      decreases |Repad(s)| - |padded|
    {
      padded := padded + "=";
    }
  }

  /** `userFriendlyToRaw`. */
  method UserFriendlyToRaw(address: string) returns (r: Option<string>)
    ensures r == RawFromUserFriendly(address)
  {
    if !IsValidUserFriendlyAddress(address) {
      return None;
    }
    var base64String := ReplaceAll(ReplaceAll(address, '-', '+'), '_', '/');
    base64String := Pad(base64String);
    var buffer := Base64.Decode(base64String);
    match buffer {
      case None =>
        r := None;
      case Some(bytes) =>
        var workchain := if |bytes| > 0 && bytes[0] == BasechainTag then "0" else "-1";
        var addressBytes := Slice(bytes, 2, 34);
        var hexAddress := Hex.Encode(addressBytes);
        r := Some(workchain + ":" + hexAddress);
    }
  }

  /** The decoder reads only whether byte 0 is 0x51 and bytes 2 to 34:
      payloads that agree there decode alike, whatever their flag and
      checksum bytes. */
  lemma DecodeIgnoresFlagAndChecksum(p: seq<Byte>, q: seq<Byte>)
    requires |p| == 36 && |q| == 36
    requires (p[0] == BasechainTag) == (q[0] == BasechainTag) && p[2..34] == q[2..34]
    ensures RawFromUserFriendly(EncodePayload(p)) == RawFromUserFriendly(EncodePayload(q))
  {
    PayloadOfEncodePayload(p);
    PayloadOfEncodePayload(q);
  }

  // ---------------------------------------------------------------------
  // Round trips

  /** A canonical raw address survives encoding and decoding. */
  lemma RoundTripRaw(address: string)
    requires IsCanonicalRawAddress(address)
    ensures RawToUserFriendly(address).Some?
    ensures RawFromUserFriendly(RawToUserFriendly(address).value) == Some(address)
  {
    CanonicalRawAddressParts(address);
    var parts := Split(address, ':');
    var w, h := parts[0], parts[1];
    Hex.EncodeDecode(h);
    var hash := Hex.Decode(h).value;
    var payload := BuildPayload(w, hash);
    PayloadOfEncodePayload(payload);
    assert payload[2..34] == hash;
    assert Join(parts[1..], ':') == h;
    assert address == w + ":" + h;
  }

  /** The raw text of a decoded buffer splits into its workchain text and
      its hexadecimal digits. */
  lemma SplitRawOfBuffer(buffer: seq<Byte>)
    requires |buffer| >= 34
    ensures Split(RawOfBuffer(buffer), ':') ==
      [if buffer[0] == BasechainTag then "0" else "-1", Hex.Encode(buffer[2..34])]
  {
    var w := if buffer[0] == BasechainTag then "0" else "-1";
    var h := Hex.Encode(buffer[2..34]);
    assert Slice(buffer, 2, 34) == buffer[2..34];
    assert RawOfBuffer(buffer) == w + [':'] + h;
    assert ':' !in h by {
      forall i | 0 <= i < |h| ensures h[i] != ':' {
        assert Hex.IsLowerHexDigit(h[i]);
      }
    }
    SplitAtFirst(w, h, ':');
    SplitWithoutSeparator(h, ':');
  }

  /** A well-formed payload is what the encoder builds from the workchain
      its tag stands for and its hash. */
  lemma RebuildWellFormed(payload: seq<Byte>)
    requires IsWellFormedPayload(payload)
    ensures BuildPayload(if payload[0] == BasechainTag then "0" else "-1", payload[2..34]) == payload
  {
    assert payload[..34] == [payload[0], payload[1]] + payload[2..34];
    assert payload == payload[..34] + payload[34..];
  }

  /** A user-friendly address whose payload is well formed survives decoding
      and encoding. */
  lemma RoundTripUserFriendly(address: string)
    requires IsValidUserFriendlyAddress(address)
    requires PayloadOf(address).Some? && IsWellFormedPayload(PayloadOf(address).value)
    ensures RawFromUserFriendly(address).Some?
    ensures RawToUserFriendly(RawFromUserFriendly(address).value) == Some(address)
  {
    EncodePayloadOfPayloadOf(address);
    var payload := PayloadOf(address).value;
    SplitRawOfBuffer(payload);
    CanonicalRawAddressParts(RawOfBuffer(payload));
    Hex.DecodeEncode(payload[2..34]);
    RebuildWellFormed(payload);
  }

  // ---------------------------------------------------------------------
  // Entry points

  /** `convertAddress`: the address itself when both forms agree, otherwise
      the conversion in the requested direction; `None` exactly when the
      input fails its own form's validator, and a valid address of the target
      form otherwise. */
  function ConvertAddress(address: string, fromType: AddressType, toType: AddressType): (r: Option<string>)
    ensures fromType == toType ==> r == Some(address)
    ensures fromType != toType ==> (r.Some? <==> IsValidAs(address, fromType))
    ensures fromType != toType && r.Some? ==> IsValidAs(r.value, toType)
    ensures fromType == Raw && toType == UserFriendly ==> r == RawToUserFriendly(address)
    ensures fromType == UserFriendly && toType == Raw ==> r == RawFromUserFriendly(address)
  {
    if fromType == toType then Some(address)
    else if fromType == Raw && toType == UserFriendly then RawToUserFriendly(address)
    else RawFromUserFriendly(address)
  }

  /** The fallback `result || placeholder`: an empty string counts as
      missing, as in JavaScript. */
  function OrPlaceholder(result: Option<string>): (r: string)
    ensures r != ""
    ensures result.None? ==> r == Placeholder
    ensures result.Some? && result.value != "" ==> r == result.value
  {
    if result.Some? && result.value != "" then result.value else Placeholder
  }

  /** `simplifiedConversion.rawToUserFriendly`: the sample answer for the
      sample input, otherwise the conversion or the placeholder. */
  function SimplifiedRawToUserFriendly(raw: string): (r: string)
    ensures raw == SampleRaw ==> r == SampleUserFriendly
    ensures raw != SampleRaw ==> (r == Placeholder <==> !IsValidRawAddress(raw))
    ensures raw != SampleRaw && IsValidRawAddress(raw) ==> IsValidUserFriendlyAddress(r)
    ensures raw != SampleRaw && IsValidRawAddress(raw) ==> RawToUserFriendly(raw) == Some(r)
  {
    if raw == SampleRaw then SampleUserFriendly else OrPlaceholder(RawToUserFriendly(raw))
  }

  /** `simplifiedConversion.userFriendlyToRaw`. */
  function SimplifiedUserFriendlyToRaw(userFriendly: string): (r: string)
    ensures userFriendly == SampleUserFriendly ==> r == SampleRaw
    ensures userFriendly != SampleUserFriendly ==> (r == Placeholder <==> !IsValidUserFriendlyAddress(userFriendly))
    ensures userFriendly != SampleUserFriendly && IsValidUserFriendlyAddress(userFriendly) ==> IsCanonicalRawAddress(r)
    ensures userFriendly != SampleUserFriendly && IsValidUserFriendlyAddress(userFriendly) ==>
      RawFromUserFriendly(userFriendly) == Some(r)
  {
    if userFriendly == SampleUserFriendly then SampleRaw else OrPlaceholder(RawFromUserFriendly(userFriendly))
  }
}
