/**
 * The two entry points the contracts pallet would offer: `call` for messages
 * and `instantiate` for constructors. Each takes the native value and the
 * input bytes out of the call value, hands them to contract execution, and
 * decodes the output with the call's decoder under a fixed complexity limit.
 *
 * The compile-time marker bounds `C: IsMessage` and `C: IsConstructor` are
 * preconditions on the exposed markers.
 */
module Pallet {
  import opened Scale
  import opened CallApi
  import opened Generated

  /** The decode complexity limit both dispatchers use. */
  const DispatchComplexityLimit: u32 := 255

  /** Contract execution is outside this model: as in the schematic pallet,
      it produces an empty output whatever it is given. */
  function ExecuteContract(value: Balance, input: Bytes): Bytes
  {
    []
  }

  /** ASCII text as the bytes of its UTF-8 encoding. */
  function Ascii(s: string): (r: Text)
    requires |s| < 0x1_0000_0000 && forall i :: 0 <= i < |s| ==> s[i] < 128 as char
    ensures |r| == |s| && forall i :: 0 <= i < |s| ==> r[i] == s[i] as int
  {
    seq(|s|, i requires 0 <= i < |s| => s[i] as int)
  }

  /** The address `instantiate` reports for the new contract. */
  const NewContractAddress: AccountId := Ascii("my_contract")

  /** `call`: dispatches a message. Only a value whose return type exposes
      `IsMessage` can be passed. With the empty stub output the decode
      reports missing data. */
  function Call(contractAddr: AccountId, gasLimit: u64, call: ExposedCall): (r: DecodeResult<Value>)
    requires IsMessage in call.markers
    ensures r == Failure(NotEnoughData)
  {
    var output := ExecuteContract(NativeValue(call.call), IntoInputData(call.call));
    assert DecodeVariant(OutputOf(call.output), output, Limit(DispatchComplexityLimit)) == Failure(NotEnoughData);
    DecodeOutput(call.output, output, DispatchComplexityLimit)
  }

  /** `instantiate`: dispatches a constructor. Only a value whose return type
      exposes `IsConstructor` can be passed. It reports the new contract's
      address together with the decoded output, which with the empty stub
      output is a decode failure. */
  function Instantiate(gasLimit: u64, call: ExposedCall): (r: (AccountId, DecodeResult<Value>))
    requires IsConstructor in call.markers
    ensures |r.0| == 11 && r.0 == [0x6D, 0x79, 0x5F, 0x63, 0x6F, 0x6E, 0x74, 0x72, 0x61, 0x63, 0x74]
    ensures r.1 == Failure(NotEnoughData)
  {
    var output := ExecuteContract(NativeValue(call.call), IntoInputData(call.call));
    assert DecodeVariant(OutputOf(call.output), output, Limit(DispatchComplexityLimit)) == Failure(NotEnoughData);
    (NewContractAddress, DecodeOutput(call.output, output, DispatchComplexityLimit))
  }

  /** The markers route each builder to one dispatcher only: the messages are
      accepted by `call` and refused by `instantiate`, and the constructor the
      other way round. */
  lemma BuildersReachOneDispatcher(nativeValue: Balance, triggerValue: bool, msg: Text,
                                   from: AccountId, to: AccountId, amount: Balance, flag: bool)
    ensures IsMessage in TriggerCall(nativeValue, triggerValue, msg).markers
    ensures IsConstructor !in TriggerCall(nativeValue, triggerValue, msg).markers
    ensures IsMessage in TransferCall(from, to, amount).markers
    ensures IsConstructor !in TransferCall(from, to, amount).markers
    ensures IsConstructor in WithTriggerValueNew(flag).markers
    ensures IsMessage !in WithTriggerValueNew(flag).markers
  {
  }
}
