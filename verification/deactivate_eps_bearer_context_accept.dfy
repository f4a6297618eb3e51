/** The ESM message "Deactivate EPS bearer context accept" (3GPP TS 24.301,
    section 8.3.11) as coded by the NAS task of the MME: the message has no
    mandatory information element beyond its header, and one optional
    element, Protocol configuration options (PCO), with IEI 0x27.

    The PCO element coders are not part of this model. They enter as
    function-valued parameters, constrained by `PcoDecoderContract` and
    `PcoEncoderContract`. */
module EsmDeactivateAccept {
  import opened Wrappers

  /** IEI of the optional PCO element (3GPP TS 24.301, section 8.3.11). */
  const PCO_IEI: bv8 := 0x27

  /** The bit of `presencemask` that records that the PCO element is present. */
  const PCO_PRESENT: bv32 := 1

  /** The contents of a PCO element. Its inner structure belongs to the
      element coders, which are not part of this model. */
  datatype ProtocolConfigurationOptions = ProtocolConfigurationOptions(contents: seq<bv8>)

  /** The TLV error codes this message coder produces. */
  datatype TlvError = TlvBufferNull | TlvBufferTooShort | TlvUnexpectedIei

  /** What the message decoder returns: the number of octets it consumed, one
      of its own TLV errors, or the element decoder's non-positive result. */
  datatype DecodeStatus =
    | Decoded(consumed: nat)
    | TlvDecodeError(error: TlvError)
    | PcoDecodeError(code: int)

  /** What the message encoder returns: the number of octets it wrote, one of
      its own TLV errors, or the element encoder's negative result. */
  datatype EncodeStatus =
    | Encoded(count: nat)
    | TlvEncodeError(error: TlvError)
    | PcoEncodeError(code: int)

  /** The value of the message's own fields. */
  datatype MessageFields = MessageFields(presencemask: bv32, pco: ProtocolConfigurationOptions)

  /** What the PCO element decoder returns: its status (octets consumed, or an
      error <= 0) and the value it left in the message's PCO field. */
  datatype IeDecodeResult = IeDecodeResult(status: int, pco: ProtocolConfigurationOptions)

  /** The PCO element decoder. It is handed the address of the message's PCO
      field, so it sees the value that field holds, together with the octets
      from the cursor to the end of the buffer; it may overwrite the field,
      or leave it as it was. */
  type PcoDecoder = (ProtocolConfigurationOptions, seq<bv8>) -> IeDecodeResult

  /** What the PCO element encoder returns for a PCO value and the room left
      in the buffer: its status (octets written, or an error < 0) and the
      octets it wrote from the cursor on. */
  datatype IeEncodeResult = IeEncodeResult(status: int, octets: seq<bv8>)

  /** The element decoder never claims more octets than it was given. */
  ghost predicate PcoDecoderContract(dec: PcoDecoder)
  {
    forall prior, b :: dec(prior, b).status <= |b|
  }

  /** The element encoder writes within the room it was given; on success it
      returns the positive number of octets it wrote, otherwise a negative
      code. */
  ghost predicate PcoEncoderContract(enc: (ProtocolConfigurationOptions, nat) -> IeEncodeResult)
  {
    forall p, room ::
      |enc(p, room).octets| <= room &&
      (enc(p, room).status < 0 || (enc(p, room).status > 0 && enc(p, room).status == |enc(p, room).octets|))
  }

  /** The element coders are inverse to each other: a successful encoding
      starts with the PCO IEI, and decoding exactly those octets, whatever the
      field held before, consumes them all and gives back the encoded value. */
  ghost predicate PcoCodersInverse(
    enc: (ProtocolConfigurationOptions, nat) -> IeEncodeResult,
    dec: PcoDecoder)
  {
    forall p, room :: enc(p, room).status > 0 ==>
      |enc(p, room).octets| > 0 && enc(p, room).octets[0] == PCO_IEI &&
      forall prior :: dec(prior, enc(p, room).octets) == IeDecodeResult(enc(p, room).status, p)
  }

  /** The element decoder's status does not depend on what the PCO field held
      before the call. */
  ghost predicate PcoDecoderStatusIgnoresField(dec: PcoDecoder)
  {
    forall p, q, b :: dec(p, b).status == dec(q, b).status
  }

  /** Nothing the element decoder returns or leaves in the PCO field depends
      on what that field held before the call. */
  ghost predicate PcoDecoderIgnoresField(dec: PcoDecoder)
  {
    forall p, q, b :: dec(p, b) == dec(q, b)
  }

  /** The message as the decoder and the encoder see it: the C structure's
      presence mask and PCO field, updated in place. */
  class DeactivateEpsBearerContextAcceptMsg {
    var presencemask: bv32
    var protocolConfigurationOptions: ProtocolConfigurationOptions

    function Fields(): MessageFields
      reads this
    {
      MessageFields(presencemask, protocolConfigurationOptions)
    }
  }

  /** The PCO presence bit is set in `mask`. */
  predicate PcoPresent(mask: bv32)
  {
    mask & PCO_PRESENT == PCO_PRESENT
  }

  /** Going from `before` to `after`, no bit of the mask is cleared. */
  predicate NoBitCleared(before: bv32, after: bv32)
  {
    before & after == before
  }

  /** Going from `before` to `after`, no bit other than the PCO presence bit
      changes. */
  predicate OnlyPcoBitChanged(before: bv32, after: bv32)
  {
    after & !PCO_PRESENT == before & !PCO_PRESENT
  }

  /** `presencemask |= PCO_PRESENT`. */
  function WithPcoBit(mask: bv32): bv32
  {
    mask | PCO_PRESENT
  }

  lemma UnchangedMask(mask: bv32)
    ensures NoBitCleared(mask, mask) && OnlyPcoBitChanged(mask, mask)
  {
  }

  lemma WithPcoBitSetsIt(mask: bv32)
    ensures PcoPresent(WithPcoBit(mask))
  {
  }

  lemma WithPcoBitClearsNothing(mask: bv32)
    ensures NoBitCleared(mask, WithPcoBit(mask))
  {
  }

  lemma WithPcoBitSetsNoOther(mask: bv32)
    ensures OnlyPcoBitChanged(mask, WithPcoBit(mask))
  {
  }

  /** Setting the presence bit a second time changes nothing. */
  lemma SetPcoBitTwice(mask: bv32)
    ensures WithPcoBit(WithPcoBit(mask)) == WithPcoBit(mask)
  {
  }

  /** The IEI an octet stands for. Type-1 IEIs occupy only the upper half of
      an octet, and every such IEI is >= 0x80, so an octet >= 0x80 keeps its
      upper nibble and loses its value nibble; any other octet is a full IEI. */
  function IeiOf(octet: bv8): (iei: bv8)
    ensures octet < 0x80 ==> iei == octet
    ensures octet >= 0x80 ==> iei >= 0x80 && iei & 0x0f == 0 && iei >> 4 == octet >> 4
  {
    if octet >= 0x80 then octet & 0xf0 else octet
  }

  /** The outcome of a decode: what is returned, what the message decoder's
      own statements write to the process-wide `errorCodeDecoder` (None when
      they write nothing; writes by the element decoder are not modelled),
      and the message's fields afterwards. */
  datatype DecodeOutcome = DecodeOutcome(
    status: DecodeStatus,
    errorCodeDecoder: Option<TlvError>,
    fields: MessageFields)

  /** The loop over the optional elements, from cursor `decoded` on. */
  function DecodeOptionals(
    bytes: seq<bv8>, decoded: nat, fields: MessageFields, dec: PcoDecoder)
    : (out: DecodeOutcome)
    requires decoded <= |bytes|
    requires PcoDecoderContract(dec)
    ensures out.errorCodeDecoder.Some? <==> out.status.TlvDecodeError?
    ensures out.status.TlvDecodeError? ==>
      out.status.error == TlvUnexpectedIei && out.errorCodeDecoder == Some(TlvUnexpectedIei)
    ensures out.status.PcoDecodeError? ==> out.status.code <= 0
    ensures out.status.Decoded? ==> out.status.consumed == |bytes|
    ensures out.fields.presencemask == fields.presencemask ||
            out.fields.presencemask == WithPcoBit(fields.presencemask)
    ensures out.status.Decoded? && decoded < |bytes| ==>
      out.fields.presencemask == WithPcoBit(fields.presencemask)
    decreases |bytes| - decoded
  {
    if decoded >= |bytes| then
      DecodeOutcome(Decoded(decoded), None, fields)
    else if IeiOf(bytes[decoded]) == PCO_IEI then
      var res := dec(fields.pco, bytes[decoded..]);
      var filled := fields.(pco := res.pco);
      if res.status <= 0 then
        DecodeOutcome(PcoDecodeError(res.status), None, filled)
      else
        var marked := filled.(presencemask := WithPcoBit(filled.presencemask));
        SetPcoBitTwice(fields.presencemask);
        DecodeOptionals(bytes, decoded + res.status, marked, dec)
    else
      DecodeOutcome(TlvDecodeError(TlvUnexpectedIei), Some(TlvUnexpectedIei), fields)
  }

  /** The whole decoder: the pointer and minimum-length check, then the loop. */
  function Decode(
    fields: MessageFields, buffer: Option<seq<bv8>>, minimumLength: nat,
    dec: PcoDecoder)
    : (out: DecodeOutcome)
    requires PcoDecoderContract(dec)
    ensures (out.status == TlvDecodeError(TlvBufferNull)) <==> buffer.None?
    ensures (out.status == TlvDecodeError(TlvBufferTooShort)) <==>
      (buffer.Some? && |buffer.value| < minimumLength)
    ensures out.errorCodeDecoder.Some? <==> out.status.TlvDecodeError?
    ensures out.errorCodeDecoder.Some? ==> out.status == TlvDecodeError(out.errorCodeDecoder.value)
    ensures out.status.Decoded? ==> buffer.Some? && out.status.consumed == |buffer.value|
    ensures out.fields.presencemask == fields.presencemask ||
            out.fields.presencemask == WithPcoBit(fields.presencemask)
    ensures out.status.Decoded? && out.status.consumed > 0 ==>
      out.fields.presencemask == WithPcoBit(fields.presencemask)
  {
    if buffer.None? then
      DecodeOutcome(TlvDecodeError(TlvBufferNull), Some(TlvBufferNull), fields)
    else if |buffer.value| < minimumLength then
      DecodeOutcome(TlvDecodeError(TlvBufferTooShort), Some(TlvBufferTooShort), fields)
    else
      DecodeOptionals(buffer.value, 0, fields, dec)
  }

  /** decode_deactivate_eps_bearer_context_accept: `buffer` may be null, `len`
      is the number of octets of the message body. */
  method DecodeDeactivateEpsBearerContextAccept(
    msg: DeactivateEpsBearerContextAcceptMsg, buffer: array?<bv8>, len: nat,
    minimumLength: nat, decodePco: PcoDecoder)
    returns (status: DecodeStatus, errorCodeDecoder: Option<TlvError>)
    requires buffer != null ==> len <= buffer.Length
    requires PcoDecoderContract(decodePco)
    modifies msg
    ensures var out := Decode(old(msg.Fields()),
                              if buffer == null then None else Some(buffer[..len]),
                              minimumLength, decodePco);
            status == out.status && errorCodeDecoder == out.errorCodeDecoder &&
            msg.Fields() == out.fields
  {
    if buffer == null {
      return TlvDecodeError(TlvBufferNull), Some(TlvBufferNull);
    }
    if len < minimumLength {
      return TlvDecodeError(TlvBufferTooShort), Some(TlvBufferTooShort);
    }
    ghost var bytes := buffer[..len];
    var decoded: nat := 0;
    while len > decoded
      invariant decoded <= len
      invariant DecodeOptionals(bytes, decoded, msg.Fields(), decodePco)
             == DecodeOptionals(bytes, 0, old(msg.Fields()), decodePco)
      decreases len - decoded
    {
      var ieiDecoded := buffer[decoded];
      if ieiDecoded >= 0x80 {
        ieiDecoded := ieiDecoded & 0xf0;
      }
      if ieiDecoded == PCO_IEI {
        assert buffer[decoded..len] == bytes[decoded..];
        var res := decodePco(msg.protocolConfigurationOptions, buffer[decoded..len]);
        msg.protocolConfigurationOptions := res.pco;
        if res.status <= 0 {
          return PcoDecodeError(res.status), None;
        }
        decoded := decoded + res.status;
        msg.presencemask := WithPcoBit(msg.presencemask);
      } else {
        return TlvDecodeError(TlvUnexpectedIei), Some(TlvUnexpectedIei);
      }
    }
    return Decoded(decoded), None;
  }

  /** A null buffer, or one shorter than the minimum length, is refused with
      the check's error code, which is also recorded in `errorCodeDecoder`,
      and the message is left as it was. */
  lemma DecodeRejectsNullOrShortBuffer(
    fields: MessageFields, buffer: Option<seq<bv8>>, minimumLength: nat,
    dec: PcoDecoder)
    requires PcoDecoderContract(dec)
    requires buffer.None? || |buffer.value| < minimumLength
    ensures var out := Decode(fields, buffer, minimumLength, dec);
            out.status.TlvDecodeError? && out.status.error != TlvUnexpectedIei &&
            out.errorCodeDecoder == Some(out.status.error) && out.fields == fields
  {
  }

  /** A message body with no optional element decodes to 0 octets consumed
      and leaves the message as it was. */
  lemma DecodeEmptyBody(fields: MessageFields, dec: PcoDecoder)
    requires PcoDecoderContract(dec)
    ensures Decode(fields, Some([]), 0, dec) == DecodeOutcome(Decoded(0), None, fields)
  {
  }

  /** An IEI other than the PCO IEI at the cursor stops the decoder with
      TLV_UNEXPECTED_IEI, recorded in `errorCodeDecoder`; this step does not
      touch the message. */
  lemma UnexpectedIeiStopsDecoding(
    bytes: seq<bv8>, decoded: nat, fields: MessageFields, dec: PcoDecoder)
    requires PcoDecoderContract(dec)
    requires decoded < |bytes| && IeiOf(bytes[decoded]) != PCO_IEI
    ensures DecodeOptionals(bytes, decoded, fields, dec)
         == DecodeOutcome(TlvDecodeError(TlvUnexpectedIei), Some(TlvUnexpectedIei), fields)
  {
  }

  /** An octet >= 0x80 at the cursor is a type-1 IEI, which this message does
      not have: whatever its value nibble, it is rejected. */
  lemma HalfOctetIeiRejected(
    bytes: seq<bv8>, decoded: nat, fields: MessageFields, dec: PcoDecoder)
    requires PcoDecoderContract(dec)
    requires decoded < |bytes| && bytes[decoded] >= 0x80
    ensures DecodeOptionals(bytes, decoded, fields, dec).status == TlvDecodeError(TlvUnexpectedIei)
  {
  }

  /** Later releases of 3GPP TS 24.301 add an Extended PCO element (IEI
      0x7B) to this message; this decoder knows only the PCO element, so it
      rejects that IEI as unexpected. */
  lemma ExtendedPcoIeiRejected(
    bytes: seq<bv8>, decoded: nat, fields: MessageFields, dec: PcoDecoder)
    requires PcoDecoderContract(dec)
    requires decoded < |bytes| && bytes[decoded] == 0x7B
    ensures DecodeOptionals(bytes, decoded, fields, dec)
         == DecodeOutcome(TlvDecodeError(TlvUnexpectedIei), Some(TlvUnexpectedIei), fields)
  {
  }

  /** When the PCO element decoder fails, its result is returned unchanged,
      the presence bit is not set for that occurrence, and the PCO field holds
      whatever the element decoder left in it; an element decoder that leaves
      the field alone on failure leaves the whole message as it was. */
  lemma PcoFailurePropagated(
    bytes: seq<bv8>, decoded: nat, fields: MessageFields, dec: PcoDecoder)
    requires PcoDecoderContract(dec)
    requires decoded < |bytes| && IeiOf(bytes[decoded]) == PCO_IEI
    requires dec(fields.pco, bytes[decoded..]).status <= 0
    ensures var out := DecodeOptionals(bytes, decoded, fields, dec);
            out.status == PcoDecodeError(dec(fields.pco, bytes[decoded..]).status) &&
            out.errorCodeDecoder.None? &&
            out.fields == MessageFields(fields.presencemask, dec(fields.pco, bytes[decoded..]).pco) &&
            (dec(fields.pco, bytes[decoded..]).pco == fields.pco ==> out.fields == fields)
  {
  }

  /** Whatever the outcome, the decoder clears no bit of `presencemask` and
      changes no bit but the PCO presence bit; a successful decode of a
      non-empty body leaves that bit set. */
  lemma DecodeMaskOnlyGainsPcoBit(
    fields: MessageFields, buffer: Option<seq<bv8>>, minimumLength: nat,
    dec: PcoDecoder)
    requires PcoDecoderContract(dec)
    ensures var out := Decode(fields, buffer, minimumLength, dec);
            NoBitCleared(fields.presencemask, out.fields.presencemask) &&
            OnlyPcoBitChanged(fields.presencemask, out.fields.presencemask) &&
            (out.status.Decoded? && out.status.consumed > 0 ==> PcoPresent(out.fields.presencemask))
  {
    var out := Decode(fields, buffer, minimumLength, dec);
    var before, after := fields.presencemask, out.fields.presencemask;
    if after == before {
      UnchangedMask(before);
    } else {
      WithPcoBitClearsNothing(before);
      WithPcoBitSetsNoOther(before);
    }
    if out.status.Decoded? && out.status.consumed > 0 {
      WithPcoBitSetsIt(before);
    }
  }

  /** When the element decoder's status does not depend on the PCO field's
      earlier value, neither does the decoder's verdict: it depends on the
      octets only. When nothing the element decoder gives depends on that
      value, once an element has been decoded the PCO value left behind does
      not depend on what the message held before either. */
  lemma {:induction false} DecodeVerdictIndependentOfMessage(
    bytes: seq<bv8>, decoded: nat, f1: MessageFields, f2: MessageFields, dec: PcoDecoder)
    requires PcoDecoderContract(dec)
    requires decoded <= |bytes|
    ensures var o1 := DecodeOptionals(bytes, decoded, f1, dec);
            var o2 := DecodeOptionals(bytes, decoded, f2, dec);
            (PcoDecoderStatusIgnoresField(dec) ==>
               o1.status == o2.status && o1.errorCodeDecoder == o2.errorCodeDecoder) &&
            (PcoDecoderIgnoresField(dec) && decoded < |bytes| && IeiOf(bytes[decoded]) == PCO_IEI ==>
               o1.fields.pco == o2.fields.pco)
    decreases |bytes| - decoded
  {
    if decoded < |bytes| && IeiOf(bytes[decoded]) == PCO_IEI {
      var r1, r2 := dec(f1.pco, bytes[decoded..]), dec(f2.pco, bytes[decoded..]);
      if PcoDecoderStatusIgnoresField(dec) {
        assert r1.status == r2.status;
        if r1.status > 0 {
          DecodeVerdictIndependentOfMessage(
            bytes, decoded + r1.status,
            MessageFields(WithPcoBit(f1.presencemask), r1.pco),
            MessageFields(WithPcoBit(f2.presencemask), r2.pco), dec);
        }
      }
      if PcoDecoderIgnoresField(dec) {
        assert r1 == r2;
        if r1.status > 0 {
          DecodeVerdictIndependentOfMessage(
            bytes, decoded + r1.status,
            MessageFields(WithPcoBit(f1.presencemask), r1.pco),
            MessageFields(WithPcoBit(f2.presencemask), r1.pco), dec);
        }
      }
    }
  }

  /** The outcome of an encode: what is returned and the octets written from
      the start of the buffer. */
  datatype EncodeOutcome = EncodeOutcome(status: EncodeStatus, written: seq<bv8>)

  /** The whole encoder: the pointer and minimum-length check, then the PCO
      element when its presence bit is set. */
  function Encode(
    fields: MessageFields, bufferIsNull: bool, len: nat, minimumLength: nat,
    enc: (ProtocolConfigurationOptions, nat) -> IeEncodeResult)
    : (out: EncodeOutcome)
    requires PcoEncoderContract(enc)
    ensures |out.written| <= len
    ensures (out.status == TlvEncodeError(TlvBufferNull)) <==> bufferIsNull
    ensures (out.status == TlvEncodeError(TlvBufferTooShort)) <==> (!bufferIsNull && len < minimumLength)
    ensures out.status.TlvEncodeError? ==> out.written == []
    ensures out.status.Encoded? ==> out.status.count == |out.written|
    ensures out.status.PcoEncodeError? ==>
      out.status.code < 0 && PcoPresent(fields.presencemask)
    ensures out.written != [] ==> PcoPresent(fields.presencemask)
  {
    if bufferIsNull then
      EncodeOutcome(TlvEncodeError(TlvBufferNull), [])
    else if len < minimumLength then
      EncodeOutcome(TlvEncodeError(TlvBufferTooShort), [])
    else if PcoPresent(fields.presencemask) then
      var res := enc(fields.pco, len);
      if res.status < 0 then EncodeOutcome(PcoEncodeError(res.status), res.octets)
      else EncodeOutcome(Encoded(res.status), res.octets)
    else
      EncodeOutcome(Encoded(0), [])
  }

  /** encode_deactivate_eps_bearer_context_accept: `buffer` may be null, `len`
      is the room in it. */
  method EncodeDeactivateEpsBearerContextAccept(
    msg: DeactivateEpsBearerContextAcceptMsg, buffer: array?<bv8>, len: nat,
    minimumLength: nat, encodePco: (ProtocolConfigurationOptions, nat) -> IeEncodeResult)
    returns (status: EncodeStatus)
    requires buffer != null ==> len <= buffer.Length
    requires PcoEncoderContract(encodePco)
    modifies buffer
    ensures var out := Encode(msg.Fields(), buffer == null, len, minimumLength, encodePco);
            status == out.status &&
            (buffer != null ==>
               |out.written| <= buffer.Length &&
               buffer[..|out.written|] == out.written &&
               buffer[|out.written|..] == old(buffer[|out.written|..]))
  {
    if buffer == null {
      return TlvEncodeError(TlvBufferNull);
    }
    if len < minimumLength {
      return TlvEncodeError(TlvBufferTooShort);
    }
    var encoded: nat := 0;
    if PcoPresent(msg.presencemask) {
      var res := encodePco(msg.protocolConfigurationOptions, len - encoded);
      // the element encoder writes its octets from buffer + encoded on
      forall i | 0 <= i < |res.octets| {
        buffer[encoded + i] := res.octets[i];
      }
      if res.status < 0 {
        return PcoEncodeError(res.status);
      }
      encoded := encoded + res.status;
    }
    return Encoded(encoded);
  }

  /** With the PCO presence bit clear, the encoder writes nothing and returns 0. */
  lemma EncodeAbsentPcoWritesNothing(
    fields: MessageFields, len: nat, minimumLength: nat,
    enc: (ProtocolConfigurationOptions, nat) -> IeEncodeResult)
    requires PcoEncoderContract(enc)
    requires minimumLength <= len && !PcoPresent(fields.presencemask)
    ensures Encode(fields, false, len, minimumLength, enc) == EncodeOutcome(Encoded(0), [])
  {
  }

  /** With the PCO presence bit set, the encoder returns the element encoder's
      count, or its negative error unchanged, and what it wrote is what the
      element encoder wrote. */
  lemma EncodePresentPcoPassesElementResult(
    fields: MessageFields, len: nat, minimumLength: nat,
    enc: (ProtocolConfigurationOptions, nat) -> IeEncodeResult)
    requires PcoEncoderContract(enc)
    requires minimumLength <= len && PcoPresent(fields.presencemask)
    ensures var e := enc(fields.pco, len);
            var out := Encode(fields, false, len, minimumLength, enc);
            out.written == e.octets &&
            (e.status < 0 ==> out.status == PcoEncodeError(e.status)) &&
            (e.status >= 0 ==> out.status == Encoded(e.status))
  {
  }

  /** Round trip: when the element coders are inverse to each other, decoding
      what a successful encode wrote into a message without the PCO bit
      consumes every octet, reproduces the PCO presence bit, changes no other
      bit, and gives back the PCO value when it was present. */
  lemma EncodeDecodeRoundTrip(
    fields: MessageFields, len: nat, minimumLength: nat, receiver: MessageFields,
    enc: (ProtocolConfigurationOptions, nat) -> IeEncodeResult,
    dec: PcoDecoder)
    requires PcoEncoderContract(enc) && PcoDecoderContract(dec) && PcoCodersInverse(enc, dec)
    requires !PcoPresent(receiver.presencemask)
    requires Encode(fields, false, len, minimumLength, enc).status.Encoded?
    requires minimumLength <= |Encode(fields, false, len, minimumLength, enc).written|
    ensures var e := Encode(fields, false, len, minimumLength, enc);
            var d := Decode(receiver, Some(e.written), minimumLength, dec);
            d.status == Decoded(|e.written|) &&
            (PcoPresent(d.fields.presencemask) <==> PcoPresent(fields.presencemask)) &&
            OnlyPcoBitChanged(receiver.presencemask, d.fields.presencemask) &&
            (PcoPresent(fields.presencemask) ==> d.fields.pco == fields.pco)
  {
    var e := Encode(fields, false, len, minimumLength, enc);
    if PcoPresent(fields.presencemask) {
      var octets := enc(fields.pco, len).octets;
      assert e.written == octets && |octets| > 0;
      assert octets[0..] == octets;
      assert IeiOf(octets[0]) == PCO_IEI;
      assert dec(receiver.pco, octets) == IeDecodeResult(|octets|, fields.pco);
      var marked := MessageFields(WithPcoBit(receiver.presencemask), fields.pco);
      assert DecodeOptionals(octets, |octets|, marked, dec) == DecodeOutcome(Decoded(|octets|), None, marked);
      assert DecodeOptionals(octets, 0, receiver, dec) == DecodeOutcome(Decoded(|octets|), None, marked);
      WithPcoBitSetsIt(receiver.presencemask);
      WithPcoBitSetsNoOther(receiver.presencemask);
    } else {
      UnchangedMask(receiver.presencemask);
    }
  }
}
