# Typed calls into ink! contracts: call values, builders, output decoder and dispatchers

This project models the call-payload and response-decoding layer of a sketch
for calling ink! smart contracts from the contracts pallet (`src/main.rs`).

- Generated builders produce call values: `trigger::call`, `transfer::call`
  and `with_trigger_value::new`. Each one SCALE-encodes a tuple made of a
  4-byte selector and the arguments.
- A call value is a `PayableCall` or an `UnpayableCall`. It hands the pallet
  its native value and its input bytes.
- Each builder's return type exposes one marker trait, `IsMessage` or
  `IsConstructor`. The dispatchers `call` and `instantiate` accept only the
  matching marker.
- `GenericDecoder` reads the contract's output as `Result<T, LangError>`, with
  `LangError = u64`. It has a depth-limited variant and an unlimited one, and it
  tolerates bytes left over after the value.

The project has five modules:

- `Scale` (`scale.dfy`) is a minimal SCALE codec. It covers the primitives used
  here: little-endian `u32`/`u64`, one-byte `bool`, `Compact<u32>`-prefixed
  strings, `Result` with its variant byte 0x00/0x01, and tuples, with `()` as
  the empty tuple. Its decoder takes a depth budget and returns the value with
  the unread rest of the input.
- `ScaleLemmas` (`scale_lemmas.dfy`) holds the codec's properties: round trip,
  canonical encoding, bounded decoding agreeing with unbounded decoding, exact
  depth-limit enforcement, and failure on truncated input.
- `CallApi` (`callapi.dfy`) models the `Call` trait and its two shapes, the
  marker traits, and `GenericDecoder`.
- `Generated` (`generated.dfy`) models the three builders and their exact byte
  layouts.
- `Pallet` (`pallet.dfy`) models `call` and `instantiate`.

Rust's compile-time machinery becomes values and preconditions:

- An `impl Call<T> + Marker` return value is an `ExposedCall`. It holds the call
  value, the output type `T` and the set of markers the return type names.
- The trait bounds `C: IsMessage` and `C: IsConstructor` on the dispatchers are
  `requires` clauses on that set.
- Text (`&str`, `String`, `AccountId`) is carried as its UTF-8 bytes.

## Model

| member | source | states |
|---|---|---|
| `Scale.Decode` | src/main.rs:199-212 | a successful decode returns a value of the requested shape, whose `Result` nesting fits the budget, and an unread rest that is a suffix of the input |
| `Scale.DecodeVariant` | src/main.rs:199-206 | one `Result` layer: a success has `Result` shape, fits the budget (a layer costs one level) and leaves a suffix of the input |
| `Scale.DecodeAll` | src/main.rs:36 | tuple fields decoded in order: a success has the field types, fits the budget and leaves a suffix of the input |
| `Scale.DecodeCompactU32` | src/main.rs:36 | the decoded compact length leaves a suffix of the input unread |
| `Scale.DecodeStr` | src/main.rs:76 | a decoded string leaves a suffix of the input unread |
| `Scale.DecodeFixed` | src/main.rs:76 | a fixed-width little-endian read is below 256^width and leaves a suffix of the input |
| `Scale.DecodeBool` | src/main.rs:97 | a decoded `bool` leaves a suffix of the input unread |
| `Scale.FromLEOfLE` | src/main.rs:36 | reading back the little-endian bytes of a number that fits the width gives the number |
| `Scale.LEOfFromLE` | src/main.rs:36 | re-encoding the number read from some bytes gives back those bytes |
| `Scale.DecodeCompactOfCompact` | src/main.rs:76 | a compact length decodes to itself, and any bytes after it are left unread, in all four modes |
| `Scale.CompactOfDecodeCompact` | src/main.rs:76 | anything the compact decoder accepts is the canonical encoding of its result followed by the rest |
| `Scale.CompactTruncated` | src/main.rs:76 | a proper prefix of a compact length fails to decode |
| `ScaleLemmas.DecodeEncode` | src/main.rs:199-212 | round trip: a well-typed value followed by any bytes decodes to the value and leaves those bytes unread, whenever the budget covers its depth |
| `ScaleLemmas.DecodeAllEncodeAll` | src/main.rs:36 | the same round trip for the fields of a tuple |
| `ScaleLemmas.EncodeDecode` | src/main.rs:205-206 | whatever decodes is exactly the encoding of the decoded value followed by the unread rest, so encodings are canonical and nothing past the value is consumed |
| `ScaleLemmas.EncodeDecodeVariant` | src/main.rs:199-206 | the same canonicity for one `Result` layer |
| `ScaleLemmas.EncodeDecodeAll` | src/main.rs:36 | the same canonicity for tuple fields |
| `ScaleLemmas.BoundedAgreesWithUnbounded` | src/main.rs:136 | whenever the depth-limited decode succeeds, the unlimited decode returns the same value and rest |
| `ScaleLemmas.DepthLimitExact` | src/main.rs:129-134 | an encoded value decodes under limit L if and only if its nesting depth is at most L, and then to itself |
| `ScaleLemmas.DecodeOfEncodingFailsOrMatches` | src/main.rs:206 | decoding an encoding under any budget either fails or returns exactly the encoded value |
| `ScaleLemmas.DecodeTruncated` | src/main.rs:206 | every proper prefix of an encoding, the empty input included, fails to decode under any budget |
| `ScaleLemmas.DecodeAllTruncated` | src/main.rs:36 | every proper prefix of a tuple's encoding fails to decode |
| `ScaleLemmas.Fields2` | src/main.rs:97 | a two-field tuple encodes as its fields side by side and has the tuple type of its fields' types |
| `ScaleLemmas.Fields4` | src/main.rs:36 | a four-field tuple encodes as its fields side by side and has the tuple type of its fields' types |
| `CallApi.AccessorsReturnWhatWasBuilt` | src/main.rs:157-163 | `native_value` returns the amount a `PayableCall` was built with and 0 for an `UnpayableCall`; `into_input_data` returns the stored bytes unchanged for both shapes |
| `CallApi.DecodeOutput` | src/main.rs:201-207 | a success is `Ok` or `Err` of `Result<T, LangError>` within the complexity limit, and the output begins with its encoding; trailing bytes are allowed |
| `CallApi.DecodeOutputUnsafeUnbounded` | src/main.rs:209-212 | a success is a `Result<T, LangError>` and the output begins with its encoding |
| `CallApi.DecodeOutputAgrees` | src/main.rs:136 | whenever `decode_output` succeeds, `decode_output_unsafe_unbounded` returns the same value |
| `CallApi.DecodeOutputRoundTrip` | src/main.rs:195-212 | an encoded `Result<T, LangError>` followed by any bytes decodes to itself without a limit, and with a limit exactly when its depth fits |
| `CallApi.DecodeOutputTruncated` | src/main.rs:201-212 | a truncated output, the empty one included, fails through both decoders |
| `CallApi.LangErrorSeven` | src/main.rs:3 | the bytes 0x01 then the little-endian `u64` 7 decode, for any `T` and with any trailing bytes, to the language error 7 inside a successful decode |
| `Generated.SelectorBytes` | src/main.rs:36 | the selectors 0xDEADBEEF, 0x1BADB002 and 0xBAADF00D occupy the bytes EF BE AD DE, 02 B0 AD 1B and 0D F0 AD BA |
| `Generated.TriggerCall` | src/main.rs:29-38 | `trigger::call` exposes only `IsMessage`, has native value `v`, and its input is EF BE AD DE, then LE32(v), then the flag byte, then the compact-prefixed message; bytes 4 to 8 read back as the native value |
| `Generated.TriggerInputLayout` | src/main.rs:34-36 | the encoded `(0xDEADBEEF, v, flag, msg)` tuple is the selector bytes, LE32(v), the flag byte and the compact-prefixed message |
| `Generated.TransferCall` | src/main.rs:70-78 | `transfer::call` exposes only `IsMessage`, has native value 0, and its input is 02 B0 AD 1B, compact-prefixed `from`, compact-prefixed `to`, then LE32(amount) |
| `Generated.WithTriggerValueNew` | src/main.rs:95-99 | `with_trigger_value::new` exposes only `IsConstructor`, has native value 0, and its input is exactly the five bytes 0D F0 AD BA and 0x00 or 0x01 |
| `Generated.BuilderInputsRoundTrip` | src/main.rs:36 | each builder's input decodes back to exactly its selector and arguments, with nothing left over |
| `Generated.SelectorsDistinct` | src/main.rs:29-99 | the three builders' inputs begin with pairwise distinct 4-byte selectors |
| `Pallet.Call` | src/main.rs:224-237 | accepts only values exposing `IsMessage`; decoding the empty stub output with limit 255 fails with missing data |
| `Pallet.Instantiate` | src/main.rs:242-257 | accepts only values exposing `IsConstructor`; returns the address "my_contract" together with the decode of the empty stub output under limit 255, which fails with missing data |
| `Pallet.BuildersReachOneDispatcher` | src/main.rs:166-169 | `trigger` and `transfer` values expose `IsMessage` and not `IsConstructor`, so only `call` accepts them; `with_trigger_value::new` is the other way round, although both shapes implement both markers |

## Left out

- Contract execution, gas and addresses: the source stubs the contract's output as an empty vector (src/main.rs:234, src/main.rs:251). `Pallet.ExecuteContract` returns `[]` whatever it is given. The address and gas-limit arguments are carried but not used, as in the source.
- `main` (src/main.rs:259-267) is example wiring only. Its `.unwrap()` on the failing decode of an empty output would panic.
- `trigger::output_decoder`, `trigger::decode_output` and `trigger::decode_output_unsafe_unbounded` (src/main.rs:41-58) only forward to `GenericDecoder`, which is modelled.
- Scale.Decode: the crate decides which types spend decode depth, and that accounting is not part of this model. The model charges one level per `Result` layer and checks the budget before reading the variant byte.
- Scale.DecodeStr: the crate also rejects bytes that are not valid UTF-8 when it decodes a `String`. The model does not check UTF-8. No decoder in the source reads strings; only the builders' input round trip does.
- Scale.Text: the crate panics when asked to encode a collection longer than `u32::MAX`. Such text cannot be built in the model.
- The crate's decode errors are strings with chained context. The model uses an enumeration (`NotEnoughData`, `InvalidBool`, `InvalidResultVariant`, `CompactOutOfRange`, `CompactUnexpectedPrefix`, `DepthLimitReached`).
- Rust ownership: `into_input_data` consumes the value, so it can be used only once. Dafny values are immutable, so single use is not modelled.
- Rust type-level machinery (the associated `Decoder` and `Output` types, the `OutputOf` alias, the `Decode + DecodeLimit` bounds) is not modelled. Every call's decoder is `GenericDecoder`, so the output type is always `Result<T, LangError>`, written `CallApi.OutputOf(T)`.
