/** A stricter decoder than `userFriendlyToRaw`, which is not part of the
    source's behaviour: it rejects tags other than 0x51 and 0x71 and payloads
    whose carried checksum differs from the CRC-16 of their first 34 bytes,
    and reports why a decode failed. Like the source it does not look at the
    flag byte. */
module StrictDecoder {
  import opened Wrappers
  import opened Bytes
  import Crc16
  import opened TonAddress

  datatype DecodeError =
    | InvalidUserFriendlyFormat
    | InvalidEncoding
    | UnknownTag
    | ChecksumMismatch

  /** Decodes a user-friendly address, mapping 0x51 to workchain "0" and
      0x71 to "-1". It succeeds exactly when the address is valid and its
      payload passes the checks, and then agrees with `userFriendlyToRaw`.
      A valid address always decodes to 36 bytes, so `InvalidEncoding` is
      never the answer. */
  function Decode(address: string): (r: Result<string, DecodeError>)
    ensures r.Success? <==>
      IsValidUserFriendlyAddress(address) && PayloadOf(address).Some?
      && IsCheckedPayload(PayloadOf(address).value)
    ensures r.Success? ==> RawFromUserFriendly(address) == Some(r.value)
    ensures r == Failure(InvalidUserFriendlyFormat) <==> !IsValidUserFriendlyAddress(address)
    ensures r != Failure(InvalidEncoding)
    ensures IsValidUserFriendlyAddress(address) ==>
      (r == Failure(UnknownTag) <==>
        PayloadOf(address).value[0] != BasechainTag && PayloadOf(address).value[0] != OtherTag)
    ensures IsValidUserFriendlyAddress(address) ==>
      (r == Failure(ChecksumMismatch) <==>
        (PayloadOf(address).value[0] == BasechainTag || PayloadOf(address).value[0] == OtherTag)
        && PayloadOf(address).value[34..] != Crc16.Checksum(PayloadOf(address).value[..34]))
  {
    if !IsValidUserFriendlyAddress(address) then Failure(InvalidUserFriendlyFormat)
    else
      EncodePayloadOfPayloadOf(address);
      match PayloadOf(address)
      case None => Failure(InvalidEncoding)
      case Some(payload) =>
        if |payload| != 36 then Failure(InvalidEncoding)
        else if payload[0] != BasechainTag && payload[0] != OtherTag then Failure(UnknownTag)
        else if payload[34..] != Crc16.Checksum(payload[..34]) then Failure(ChecksumMismatch)
        else Success(RawOfBuffer(payload))
  }

  /** Every canonical raw address, once encoded, passes the strict decoder
      and comes back unchanged. */
  lemma DecodeEncoded(raw: string)
    requires IsCanonicalRawAddress(raw)
    ensures RawToUserFriendly(raw).Some?
    ensures Decode(RawToUserFriendly(raw).value) == Success(raw)
  {
    CanonicalRawAddressParts(raw);
    RawToUserFriendlyLayout(raw);
    RoundTripRaw(raw);
  }

  /** Changing any one of the 36 bytes of an encoder-produced payload makes
      the strict decoder fail with `UnknownTag` or `ChecksumMismatch`, never
      decode to a different address. */
  lemma DetectsSingleByteCorruption(p: seq<Byte>, q: seq<Byte>, i: nat)
    requires IsWellFormedPayload(p)
    requires |q| == 36 && i < 36 && p[i] != q[i]
    requires forall j :: 0 <= j < 36 && j != i ==> p[j] == q[j]
    ensures Decode(EncodePayload(q)) == Failure(UnknownTag) || Decode(EncodePayload(q)) == Failure(ChecksumMismatch)
  {
    PayloadOfEncodePayload(q);
    if q[0] == BasechainTag || q[0] == OtherTag {
      if i < 34 {
        Crc16.ChecksumDetectsByteChange(p[..34], q[..34], i);
        assert p[34..] == q[34..];
      } else {
        assert p[..34] == q[..34];
        assert p[34..][i - 34] != q[34..][i - 34];
      }
    }
  }
}
