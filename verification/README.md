# Deactivate EPS bearer context accept codec and subscriber table rows

This project models two small pieces of the Magma mobile core in Dafny and
proves properties about them.

**The NAS ESM message "Deactivate EPS bearer context accept"** is coded in
`DeactivateEpsBearerContextAccept.c`. The message is defined in section
8.3.11 of 3GPP TS 24.301. Besides its header it has no mandatory element.
In the release this decoder follows it has one optional element, Protocol
Configuration Options (PCO), with IEI 0x27. Later releases also list Extended
PCO (IEI 0x7B) there; this decoder rejects it as an unexpected IEI
(`ExtendedPcoIeiRejected`).

- The decoder checks the buffer pointer and the minimum length. It then walks
  the body with a `decoded` cursor. An octet at or above 0x80 is a type-1
  IEI, so it is cut down to its upper nibble. Only the PCO IEI is accepted.
  Each PCO element is handed to the element decoder, and each success ORs
  the PCO bit into `presencemask`. Any other IEI stops decoding with
  TLV_UNEXPECTED_IEI.
- The encoder writes the PCO element only when its presence bit is set. It
  passes on the element encoder's count or negative error.

In the model (`deactivate_eps_bearer_context_accept.dfy`, module
`EsmDeactivateAccept`):

- The message is a class whose `presencemask` and PCO fields the decoder
  updates in place.
- The buffer is an `array?<bv8>`, which may be null.
- Both coders are methods that work in place. The decoder walks the buffer
  in a cursor loop and updates the message. The encoder has no loop: it
  tests the presence bit and copies the element encoder's octets into the
  buffer.
- Each method is proved equal to a specification function: `Decode` (with
  `DecodeOptionals` for the loop) for the decoder, and `Encode` for the
  encoder.
- The lemmas are stated about those functions.
- The PCO element coders are not part of this model. They enter as
  function-valued parameters. The element decoder is given the value the PCO
  field holds (the C callee gets the field's address) and the octets, and
  returns its status and the value it leaves in the field.
  `PcoDecoderContract` requires that the element decoder never claims more
  octets than it was given. `PcoEncoderContract`
  requires that the element encoder writes within its room and returns
  either a negative error or the positive number of octets it wrote.

**The subscriber dashboard** (`SubscriberOverview.js`) turns the subscriber
directory and the metrics map into table rows. `subscriber_overview.dfy`
(module `SubscriberOverview`) models that projection as pure functions:

- A JavaScript object is modelled as its `Object.keys` order plus its
  entries.
- `null`/`undefined` is modelled as `None`.
- `??` is `GetOr`.

The projection gives one row per key, in key order. It has these defaults:

- `name` falls back to the IMSI.
- `currentUsage` and `dailyAvg` fall back to `"0"`.
- `lastReportedTime` falls back to the epoch (0 ms).
- A missing subscriber map gives the placeholder. The code renders it as a
  plain string, `'<Text>No Subscribers Found</Text>'`, tag text included, and
  the model keeps that string as it is.

`??` replaces only `null`/`undefined`, so an empty name is kept;
`RowNameFallback` proves it.

## Model

| member | source | states |
|---|---|---|
| `EsmDeactivateAccept.IeiOf` | lte/gateway/c/oai/tasks/nas/esm/msg/DeactivateEpsBearerContextAccept.c:50-55 | an octet below 0x80 is used as the IEI unchanged; an octet at or above 0x80 keeps its upper nibble, gets a zero lower nibble and stays at or above 0x80 |
| `EsmDeactivateAccept.DecodeOptionals` | lte/gateway/c/oai/tasks/nas/esm/msg/DeactivateEpsBearerContextAccept.c:49-80 | the loop over optional elements: success consumes exactly the whole buffer; `errorCodeDecoder` is written exactly when the error is TLV_UNEXPECTED_IEI; an element-decoder failure is returned as a value <= 0; the mask either stays as it was or gains the PCO bit, and success on a non-empty remainder sets that bit |
| `EsmDeactivateAccept.Decode` | lte/gateway/c/oai/tasks/nas/esm/msg/DeactivateEpsBearerContextAccept.c:30-81 | the buffer-null error occurs if and only if the buffer is null; the too-short error occurs if and only if the buffer is shorter than the minimum length; `errorCodeDecoder` is written exactly for TLV errors and holds the returned code; success consumes all `len` octets; the mask only gains the PCO bit, and gains it whenever something was consumed |
| `EsmDeactivateAccept.DecodeDeactivateEpsBearerContextAccept` | lte/gateway/c/oai/tasks/nas/esm/msg/DeactivateEpsBearerContextAccept.c:30-81 | the in-place decoder (cursor loop over the array, message updated in place) returns exactly what `Decode` gives and leaves exactly the message fields that `Decode` gives; the loop invariant keeps `decoded <= len` |
| `EsmDeactivateAccept.DecodeRejectsNullOrShortBuffer` | lte/gateway/c/oai/tasks/nas/esm/msg/DeactivateEpsBearerContextAccept.c:39-41 | a null or short buffer returns the check's error, records it in `errorCodeDecoder` and leaves the message unchanged |
| `EsmDeactivateAccept.DecodeEmptyBody` | lte/gateway/c/oai/tasks/nas/esm/msg/DeactivateEpsBearerContextAccept.c:49-80 | a body with no optional element returns 0 octets consumed and leaves the message unchanged |
| `EsmDeactivateAccept.UnexpectedIeiStopsDecoding` | lte/gateway/c/oai/tasks/nas/esm/msg/DeactivateEpsBearerContextAccept.c:57-77 | an IEI other than PCO at the cursor returns TLV_UNEXPECTED_IEI, writes it to `errorCodeDecoder`, and this step leaves the message untouched |
| `EsmDeactivateAccept.HalfOctetIeiRejected` | lte/gateway/c/oai/tasks/nas/esm/msg/DeactivateEpsBearerContextAccept.c:50-76 | any octet at or above 0x80 at the cursor is rejected as an unexpected IEI, whatever its value nibble |
| `EsmDeactivateAccept.ExtendedPcoIeiRejected` | lte/gateway/c/oai/tasks/nas/esm/msg/DeactivateEpsBearerContextAccept.c:57-77 | the Extended PCO IEI 0x7B at the cursor is rejected with TLV_UNEXPECTED_IEI, recorded in `errorCodeDecoder`, and this step leaves the message untouched |
| `EsmDeactivateAccept.PcoFailurePropagated` | lte/gateway/c/oai/tasks/nas/esm/msg/DeactivateEpsBearerContextAccept.c:58-66 | when the PCO element decoder returns a value <= 0, that same value is returned, `errorCodeDecoder` is not written and the presence bit is not set for that occurrence; the PCO field holds what the element decoder left there, so a decoder that leaves it alone on failure leaves the message unchanged |
| `EsmDeactivateAccept.DecodeMaskOnlyGainsPcoBit` | lte/gateway/c/oai/tasks/nas/esm/msg/DeactivateEpsBearerContextAccept.c:68-74 | whatever the outcome, the decoder never clears a mask bit and changes no bit but the PCO bit; a successful decode of a non-empty body leaves the PCO bit set |
| `EsmDeactivateAccept.DecodeVerdictIndependentOfMessage` | lte/gateway/c/oai/tasks/nas/esm/msg/DeactivateEpsBearerContextAccept.c:49-80 | if the element decoder's status does not depend on the PCO field's earlier value, the returned status and the `errorCodeDecoder` write depend only on the octets, not on what the message held before; if nothing the element decoder gives depends on that value, then once a PCO element has been decoded the resulting PCO value does not depend on it either |
| `EsmDeactivateAccept.Encode` | lte/gateway/c/oai/tasks/nas/esm/msg/DeactivateEpsBearerContextAccept.c:83-115 | the buffer-null and too-short tags occur exactly when the buffer is null or `len` is below the minimum length; writes stay within `len`; a success returns the number of octets written; an element-encoder error is returned as a negative value, and only when the PCO bit is set; nothing is written unless the PCO bit is set |
| `EsmDeactivateAccept.EncodeDeactivateEpsBearerContextAccept` | lte/gateway/c/oai/tasks/nas/esm/msg/DeactivateEpsBearerContextAccept.c:83-115 | the in-place encoder returns what `Encode` gives; the buffer holds `Encode`'s octets at its start and is unchanged after them |
| `EsmDeactivateAccept.EncodeAbsentPcoWritesNothing` | lte/gateway/c/oai/tasks/nas/esm/msg/DeactivateEpsBearerContextAccept.c:98-114 | with the PCO bit clear, the encoder writes nothing and returns 0 |
| `EsmDeactivateAccept.EncodePresentPcoPassesElementResult` | lte/gateway/c/oai/tasks/nas/esm/msg/DeactivateEpsBearerContextAccept.c:102-111 | with the PCO bit set, the encoder returns the element encoder's count, or its negative error unchanged, and what it writes is exactly what the element encoder wrote |
| `EsmDeactivateAccept.EncodeDecodeRoundTrip` | lte/gateway/c/oai/tasks/nas/esm/msg/DeactivateEpsBearerContextAccept.c:30-115 | if the PCO element coders are inverse to each other, then decoding what a successful encode wrote, into a message without the PCO bit: consumes every octet; sets the PCO bit exactly when the original had it; changes no other bit; gives back the original PCO value |
| `SubscriberOverview.ProjectRows` | nms/app/packages/magmalte/app/views/subscriber/SubscriberOverview.js:148-161 | `Object.keys(...).map(...)`: one row per key, row i built from key i and that key's record |
| `SubscriberOverview.SubscriberTableData` | nms/app/packages/magmalte/app/views/subscriber/SubscriberOverview.js:146-235 | the placeholder `'<Text>No Subscribers Found</Text>'` appears if and only if the subscriber map is null or undefined; otherwise there are exactly as many rows as keys, and row i's IMSI is the i-th key |
| `SubscriberOverview.RowsAreOnePerKey` | nms/app/packages/magmalte/app/views/subscriber/SubscriberOverview.js:148-153 | the set of row IMSIs is exactly the key set of the subscriber map, and no two rows share an IMSI |
| `SubscriberOverview.RowNameFallback` | nms/app/packages/magmalte/app/views/subscriber/SubscriberOverview.js:152 | the name is the record's name whenever it is set (an empty name is kept); a null or undefined name falls back to the IMSI |
| `SubscriberOverview.RowIdentityAndService` | nms/app/packages/magmalte/app/views/subscriber/SubscriberOverview.js:153-154 | the row's IMSI is its key; the service is `lte.state` with no fallback |
| `SubscriberOverview.RowUsageDefaults` | nms/app/packages/magmalte/app/views/subscriber/SubscriberOverview.js:150-156 | `currentUsage` and `dailyAvg` are `"0"` when the metrics map, its entry for the IMSI, or the field is missing; otherwise they are the metric's value |
| `SubscriberOverview.RowLastReportedTime` | nms/app/packages/magmalte/app/views/subscriber/SubscriberOverview.js:157-159 | the last reported time is `monitoring.icmp.last_reported_time` when every link is present, and the epoch (0) otherwise |
| `SubscriberOverview.NoMetricsAllDefault` | nms/app/packages/magmalte/app/views/subscriber/SubscriberOverview.js:150-156 | without a metrics map, every row shows `"0"` for both usage figures |
| `SubscriberOverview.SingleSubscriberScenario` | nms/app/packages/magmalte/app/views/subscriber/SubscriberOverview.js:148-161 | one subscriber "Alice" (state ACTIVE, no monitoring) and an empty metrics map give exactly one row: name Alice, usage "0" and "0", time at the epoch |

`SubscriberOverview.ProjectRow` (SubscriberOverview.js:148-160, the `map`
callback) has no contract of its own: `RowNameFallback`,
`RowIdentityAndService`, `RowUsageDefaults` and `RowLastReportedTime` are its
contract, field by field. The one-expression helpers it uses, `MetricsFor`
(`subscriberMetrics?.[imsi]`, js:150) and `ReportedTime`
(`monitoring?.icmp?.last_reported_time`, js:157-158), are covered by
`RowUsageDefaults` and `RowLastReportedTime`. In the decoder file,
`WithPcoBit` (`presencemask |= ...`, c:72-73) is covered by
`DecodeMaskOnlyGainsPcoBit`, and `PcoPresent` (the presence test, c:98-101) by
`EncodeAbsentPcoWritesNothing` and `EncodePresentPcoPassesElementResult`.

## Left out

- PCO element coders: `decode_protocol_configuration_options_ie` and `encode_protocol_configuration_options_ie` are not part of this model. They are parameters constrained only by the contracts above, so the PCO octet layout is not modelled.
- Header values: the bodies of `CHECK_PDU_POINTER_AND_LENGTH_DECODER` and `_ENCODER` come from headers that are not part of this model. So do the value of `DEACTIVATE_EPS_BEARER_CONTEXT_ACCEPT_MINIMUM_LENGTH`, the numeric TLV error codes and the value of the presence bit.
- Minimum length and PCO IEI: the minimum length is a parameter. The PCO IEI, 0x27, is taken from section 8.3.11 of 3GPP TS 24.301.
- Presence bit: it is taken as bit 0. The proofs use only that it is a single bit.
- Check errors: the pointer and length checks are modelled as returning, and recording in `errorCodeDecoder`, a buffer-null or buffer-too-short error. The encoder's check is modelled as returning that error only: the model records no error global for the encoder, unlike the decoder.
- TLV error codes: these are cases of a datatype, not integers. In C, an element decoder returning 0 makes the message decoder return 0, which a caller cannot tell apart from "success, 0 octets". The model keeps the two apart: `PcoDecodeError(0)` versus `Decoded(0)`. In the same way, a negative code from the element decoder is a plain `int` in C and may equal `TLV_BUFFER_TOO_SHORT`, `TLV_BUFFER_NULL` or `TLV_UNEXPECTED_IEI`. The model tags it `PcoDecodeError`, so the "if and only if" of `Decode` for the check errors holds of the tags, not of the C integers. The same holds of `Encode`: the element encoder's negative result is returned unchanged, and may equal `TLV_BUFFER_TOO_SHORT`, for example when the PCO element does not fit in `len`. The model tags it `PcoEncodeError`, so `Encode`'s "exactly when" for the null and too-short errors also holds of the tags only.
- `errorCodeDecoder`: this process-wide global becomes an output. It holds the value the message decoder's own statements write, or `None` when they write nothing. Only those writes are modelled. The element decoder may also write this global, and that write is not modelled. So "not written" after a PCO failure (`PcoFailurePropagated`, `DecodeOptionals`) and "written exactly for TLV errors" (`Decode`) speak of the message decoder's own writes only.
- `len` and `decoded`: these are unbounded naturals. 32-bit wrap-around of `decoded += decoded_result` cannot happen under the element-decoder contract, which keeps `decoded <= len`. The conversion at `return decoded;` from `uint32_t` to the `int` result is not modelled: in C, a count above INT_MAX would come back negative, and the model returns it as a natural.
- Message header: the header fields (protocol discriminator, EPS bearer identity, procedure transaction identity, message type) are coded elsewhere and are not modelled.
- What the element coders leave behind on failure: the element decoder is given the field's earlier value and returns the value the field holds afterwards, which may be that earlier value (a callee that fails before writing). The element encoder's octets are always written, because it writes into the caller's buffer directly.
- DecodeVerdictIndependentOfMessage: the C callee gets the PCO field's address and could read it, so the verdict and the PCO value are not independent of the message in general. The lemma states them only for an element decoder whose status (`PcoDecoderStatusIgnoresField`), or whose whole result (`PcoDecoderIgnoresField`), does not depend on the field's earlier value; the element decoder's code is not part of this model.
- `new Date(...)`: `lastReportedTime` is the millisecond count the `Date` is built from.
- Missing `lte`: a record without `lte` would make the JavaScript throw. Its type requires `lte`, so the model does too.
- React and routing in SubscriberOverview.js: routing, styling, `TopBar`/`ActionTable` rendering, column definitions, the View/Edit navigation, the `useState` row selection and the Remove workflow (`confirm`, `ctx.setState`, `enqueueSnackbar`) are UI callbacks into services that are not part of this model.
