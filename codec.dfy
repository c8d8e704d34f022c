/**
 * The value codec: a domain status is converted to its wire message, and the message to
 * bytes; reading goes back in two fallible steps, a decode of the bytes and a validating
 * conversion of the message.
 *
 * The wire message has the shape of the schema's `VirtualObjectStatus` message, a oneof
 * that is either `unlocked` or `locked { invocation_id }`, and may be unset. Its bytes
 * are a small tag-prefixed stand-in for protobuf: the unset message is empty, as in
 * protobuf; `unlocked` is field 1 holding an empty message; `locked` is field 2, whose
 * payload (the invocation id) runs to the end of the message.
 */
module Codec {
  import opened Wrappers
  import opened Types

  const UNLOCKED_TAG: byte := 0x0A
  const LOCKED_TAG: byte := 0x12

  datatype ProtoStatusKind = ProtoUnlocked | ProtoLocked(invocationId: Bytes)

  /** The wire message; `status` is the oneof, `None` when the sender left it unset. */
  datatype ProtoVirtualObjectStatus = ProtoVirtualObjectStatus(status: Option<ProtoStatusKind>)

  /** Serialises a wire message. Every message, valid for the domain or not, has bytes. */
  function EncodeProto(p: ProtoVirtualObjectStatus): (b: Bytes)
    ensures DecodeProto(b) == Ok(p)
  {
    match p.status
    case None => []
    case Some(ProtoUnlocked) => [UNLOCKED_TAG, 0]
    case Some(ProtoLocked(id)) => [LOCKED_TAG] + id
  }

  /**
   * Parses bytes as a wire message; malformed bytes are a decode error. Empty bytes are the
   * message with the oneof unset, and a message opening with the locked tag always parses.
   */
  function DecodeProto(b: Bytes): (r: Result<ProtoVirtualObjectStatus, DecodeError>)
    ensures |b| == 0 <==> r == Ok(ProtoVirtualObjectStatus(None))
    ensures |b| > 0 && b[0] == LOCKED_TAG ==> r == Ok(ProtoVirtualObjectStatus(Some(ProtoLocked(b[1..]))))
    ensures r.Err? ==> |b| > 0 && b[0] != LOCKED_TAG
  {
    if |b| == 0 then Ok(ProtoVirtualObjectStatus(None))
    else if b[0] == UNLOCKED_TAG then
      if |b| == 1 then Err(UnexpectedEndOfInput)
      else if b[1] != 0 || |b| > 2 then Err(InvalidLength)
      else Ok(ProtoVirtualObjectStatus(Some(ProtoUnlocked)))
    else if b[0] == LOCKED_TAG then Ok(ProtoVirtualObjectStatus(Some(ProtoLocked(b[1..]))))
    else Err(UnknownField(b[0]))
  }

  /** Decoding is the exact inverse of encoding: the bytes that decode are the encodings. */
  lemma DecodeProtoCanonical(b: Bytes)
    ensures DecodeProto(b).Ok? ==> EncodeProto(DecodeProto(b).value) == b
  {
    if |b| > 0 && b[0] == LOCKED_TAG {
      assert b == [LOCKED_TAG] + b[1..];
    }
  }

  /** The conversion from a domain status to its wire message (`From<VirtualObjectStatus>`). */
  function FromStatus(s: VirtualObjectStatus): (p: ProtoVirtualObjectStatus)
    ensures p.status.Some?
  {
    match s
    case Unlocked => ProtoVirtualObjectStatus(Some(ProtoUnlocked))
    case Locked(id) => ProtoVirtualObjectStatus(Some(ProtoLocked(id)))
  }

  /**
   * The validating conversion from a wire message to a domain status (`TryFrom`): an unset
   * oneof, or a lock whose invocation id is not a well-formed id, is a conversion error.
   */
  function TryFromProto(p: ProtoVirtualObjectStatus): (r: Result<VirtualObjectStatus, ConversionError>)
    ensures r.Ok? ==> FromStatus(r.value) == p
    ensures r.Err? <==> p.status.None? || (p.status.value.ProtoLocked? && |p.status.value.invocationId| != INVOCATION_ID_LENGTH)
  {
    match p.status
    case None => Err(MissingField("status"))
    case Some(ProtoUnlocked) => Ok(Unlocked)
    case Some(ProtoLocked(id)) =>
      if |id| == INVOCATION_ID_LENGTH then Ok(Locked(id)) else Err(InvalidData("invocation_id"))
  }

  lemma TryFromProtoFromStatus(s: VirtualObjectStatus)
    ensures TryFromProto(FromStatus(s)) == Ok(s)
  {
  }

  /** The stored bytes of a status: they decode and validate back to that status, and are never empty. */
  function Encode(s: VirtualObjectStatus): (b: Bytes)
    ensures DecodeProto(b).Ok? && TryFromProto(DecodeProto(b).value) == Ok(s)
    ensures |b| > 0
  {
    TryFromProtoFromStatus(s);
    EncodeProto(FromStatus(s))
  }

  /**
   * Reads stored bytes back as a status: malformed bytes are `Generic`, a well-formed
   * message that is not a valid status is `Conversion`, and the two never mix.
   */
  function DecodeStatus(b: Bytes): (r: Result<VirtualObjectStatus, StorageError>)
    ensures r.Ok? ==> Encode(r.value) == b
    ensures r.Err? && r.error.Generic? <==> DecodeProto(b).Err?
    ensures r.Err? && r.error.Generic? ==> r.error.decodeError == DecodeProto(b).error
    ensures r.Err? && r.error.Conversion? <==> DecodeProto(b).Ok? && TryFromProto(DecodeProto(b).value).Err?
    ensures r.Err? && r.error.Conversion? ==> r.error.conversionError == TryFromProto(DecodeProto(b).value).error
  {
    DecodeProtoCanonical(b);
    match DecodeProto(b)
    case Err(e) => Err(Generic(e))
    case Ok(p) =>
      match TryFromProto(p)
      case Err(c) => Err(Conversion(c))
      case Ok(s) => Ok(s)
  }

  /** Round trip: every status reads back as itself. */
  lemma DecodeEncode(s: VirtualObjectStatus)
    ensures DecodeStatus(Encode(s)) == Ok(s)
  {
    TryFromProtoFromStatus(s);
  }

  /** Stored bytes decode to `s` exactly when they are the encoding of `s`. */
  lemma DecodeStatusIff(b: Bytes, s: VirtualObjectStatus)
    ensures DecodeStatus(b) == Ok(s) <==> b == Encode(s)
  {
    if b == Encode(s) {
      DecodeEncode(s);
    }
  }

  /** Distinct statuses have distinct stored bytes. */
  lemma EncodeInjective(s: VirtualObjectStatus, t: VirtualObjectStatus)
    ensures Encode(s) == Encode(t) ==> s == t
  {
    DecodeEncode(s);
    DecodeEncode(t);
  }
}
