/**
 * The interface every generated contract module shares: the `Call` trait with
 * its two implementations, the `IsMessage`/`IsConstructor` marker traits, and
 * `GenericDecoder`, the `OutputDecoder` that reads a contract's output as
 * `Result<T, LangError>`.
 *
 * Rust's `impl Call<T> + Marker` return types become an `ExposedCall`: the
 * concrete call value together with the output type `T` and the set of marker
 * traits the return type lets a caller see. Both shapes implement both
 * markers; a builder decides which one to expose.
 */
module CallApi {
  import opened Scale
  import opened ScaleLemmas

  type Balance = u32
  type LangError = u64
  type AccountId = Text

  const LangErrorT: Ty := U64T

  /** The two implementations of `Call`. A `PayableCall` carries the native
      value to transfer; an `UnpayableCall` carries only the input bytes.
      Both are built once and never changed. */
  datatype CallValue =
    | PayableCall(nativeValue: Balance, inputData: Bytes)
    | UnpayableCall(inputData: Bytes)

  /** `Call::native_value`: the amount handed to the contracts pallet. */
  function NativeValue(c: CallValue): Balance
  {
    match c
    case PayableCall(v, _) => v
    case UnpayableCall(_) => 0
  }

  /** `Call::into_input_data`: the bytes handed to the contract, as built. */
  function IntoInputData(c: CallValue): Bytes
  {
    c.inputData
  }

  /** Both accessors give back exactly what the value was built with, and an
      unpayable call transfers nothing. */
  lemma AccessorsReturnWhatWasBuilt(amount: Balance, input: Bytes)
    ensures NativeValue(PayableCall(amount, input)) == amount
    ensures IntoInputData(PayableCall(amount, input)) == input
    ensures NativeValue(UnpayableCall(input)) == 0
    ensures IntoInputData(UnpayableCall(input)) == input
  {
  }

  datatype Marker = IsMessage | IsConstructor

  /** The marker traits a shape implements: `PayableCall` and `UnpayableCall`
      each implement both. */
  function ImplementedMarkers(c: CallValue): set<Marker>
  {
    match c
    case PayableCall(_, _) => {IsMessage, IsConstructor}
    case UnpayableCall(_) => {IsMessage, IsConstructor}
  }

  /** What an `impl Call<T> + Marker` return value lets its caller see: the
      call, its output type `T` and the markers named in the return type. */
  datatype ExposedCall = ExposedCall(call: CallValue, output: Ty, markers: set<Marker>)

  /** A return type can only name markers the shape implements. */
  predicate WellExposed(c: ExposedCall) {
    c.markers <= ImplementedMarkers(c.call)
  }

  // ---------------------------------------------------------------------------
  // GenericDecoder

  /** `<GenericDecoder as OutputDecoder<T>>::Output`, i.e. `Result<T, LangError>`. */
  function OutputOf(t: Ty): Ty
  {
    ResultT(t, LangErrorT)
  }

  /** `GenericDecoder::decode_output`: decodes `Result<T, LangError>` from the
      front of the output under the depth limit. Bytes after the value are
      not an error. */
  function DecodeOutput(t: Ty, outputData: Bytes, decodeComplexityLimit: u32): (r: DecodeResult<Value>)
    ensures r.Success? ==> HasType(r.value, OutputOf(t)) && r.value.Ok? != r.value.Err?
    ensures r.Success? ==> Depth(r.value) <= decodeComplexityLimit
    ensures r.Success? ==> |Encode(r.value)| <= |outputData| && outputData[..|Encode(r.value)|] == Encode(r.value)
  {
    var p :- Decode(OutputOf(t), outputData, Limit(decodeComplexityLimit));
    EncodeDecode(OutputOf(t), outputData, Limit(decodeComplexityLimit));
    assert outputData[..|Encode(p.value)|] == Encode(p.value);
    Success(p.value)
  }

  /** `GenericDecoder::decode_output_unsafe_unbounded`: the same layout with
      no depth limit, for trusted contracts. */
  function DecodeOutputUnsafeUnbounded(t: Ty, outputData: Bytes): (r: DecodeResult<Value>)
    ensures r.Success? ==> HasType(r.value, OutputOf(t)) && r.value.Ok? != r.value.Err?
    ensures r.Success? ==> |Encode(r.value)| <= |outputData| && outputData[..|Encode(r.value)|] == Encode(r.value)
  {
    var p :- Decode(OutputOf(t), outputData, Unbounded);
    EncodeDecode(OutputOf(t), outputData, Unbounded);
    assert outputData[..|Encode(p.value)|] == Encode(p.value);
    Success(p.value)
  }

  /** Whenever the bounded decoder succeeds, the unbounded one returns the
      same value. */
  lemma DecodeOutputAgrees(t: Ty, outputData: Bytes, limit: u32)
    requires DecodeOutput(t, outputData, limit).Success?
    ensures DecodeOutputUnsafeUnbounded(t, outputData) == DecodeOutput(t, outputData, limit)
  {
    BoundedAgreesWithUnbounded(OutputOf(t), outputData, Limit(limit));
  }

  /** Round trip, with any trailing bytes: an encoded `Result<T, LangError>`
      decodes to itself through the unbounded decoder, and through the
      bounded one exactly when its nesting fits the limit. */
  lemma DecodeOutputRoundTrip(t: Ty, v: Value, trailing: Bytes, limit: u32)
    requires HasType(v, OutputOf(t))
    ensures DecodeOutputUnsafeUnbounded(t, Encode(v) + trailing) == Success(v)
    ensures DecodeOutput(t, Encode(v) + trailing, limit).Success? <==> Depth(v) <= limit
    ensures Depth(v) <= limit ==> DecodeOutput(t, Encode(v) + trailing, limit) == Success(v)
  {
    DecodeEncode(v, OutputOf(t), trailing, Unbounded);
    DepthLimitExact(v, OutputOf(t), trailing, limit);
  }

  /** A truncated output (a proper prefix of an encoding) fails through both
      decoders. */
  lemma DecodeOutputTruncated(t: Ty, v: Value, k: nat, limit: u32)
    requires HasType(v, OutputOf(t)) && k < |Encode(v)|
    ensures DecodeOutput(t, Encode(v)[..k], limit).Failure?
    ensures DecodeOutputUnsafeUnbounded(t, Encode(v)[..k]).Failure?
  {
    DecodeTruncated(v, OutputOf(t), k, Limit(limit));
    DecodeTruncated(v, OutputOf(t), k, Unbounded);
  }

  /** The two error channels stay apart: the bytes 0x01 followed by the
      little-endian `u64` 7 are a well-framed output whose inner result is
      the language error 7, for any success type, even with bytes after it. */
  lemma LangErrorSeven(t: Ty, trailing: Bytes)
    ensures DecodeOutput(t, [0x01, 0x07, 0, 0, 0, 0, 0, 0, 0] + trailing, 255) == Success(Err(U64(7)))
  {
    assert Encode(Err(U64(7))) == [0x01, 0x07, 0, 0, 0, 0, 0, 0, 0];
    DecodeOutputRoundTrip(t, Err(U64(7)), trailing, 255);
  }
}
