/**
 * The code generated per contract: one builder per message (`trigger::call`,
 * `transfer::call`) and per constructor (`with_trigger_value::new`). Each
 * encodes a tuple that starts with its 4-byte selector and continues with the
 * arguments, wraps the bytes in a call value, and exposes exactly one marker.
 */
module Generated {
  import opened Scale
  import opened ScaleLemmas
  import opened CallApi

  const TriggerSelector: u32 := 0xDEADBEEF
  const TransferSelector: u32 := 0x1BADB002
  const WithTriggerValueSelector: u32 := 0xBAADF00D

  /** `trigger::Output`, `transfer::Output` and `with_trigger_value::Output`. */
  const TriggerOutput: Ty := UnitT
  const TransferOutput: Ty := ResultT(UnitT, UnitT)
  const WithTriggerValueOutput: Ty := UnitT

  /** The tuple types the builders encode. */
  const TriggerInputT: Ty := TupleT([U32T, U32T, BoolT, StrT])
  const TransferInputT: Ty := TupleT([U32T, StrT, StrT, U32T])
  const WithTriggerValueInputT: Ty := TupleT([U32T, BoolT])

  function BoolByte(b: bool): byte
  {
    if b then 1 else 0
  }

  /** The selectors' little-endian bytes. */
  lemma SelectorBytes()
    ensures LE(TriggerSelector, 4) == [0xEF, 0xBE, 0xAD, 0xDE]
    ensures LE(TransferSelector, 4) == [0x02, 0xB0, 0xAD, 0x1B]
    ensures LE(WithTriggerValueSelector, 4) == [0x0D, 0xF0, 0xAD, 0xBA]
  {
    assert LE(0xDE, 1) == [0xDE] + LE(0, 0);
    assert LE(0xDEAD, 2) == [0xAD] + LE(0xDE, 1);
    assert LE(0xDEADBE, 3) == [0xBE] + LE(0xDEAD, 2);
    assert LE(0xDEADBEEF, 4) == [0xEF] + LE(0xDEADBE, 3);
    assert LE(0x1B, 1) == [0x1B] + LE(0, 0);
    assert LE(0x1BAD, 2) == [0xAD] + LE(0x1B, 1);
    assert LE(0x1BADB0, 3) == [0xB0] + LE(0x1BAD, 2);
    assert LE(0x1BADB002, 4) == [0x02] + LE(0x1BADB0, 3);
    assert LE(0xBA, 1) == [0xBA] + LE(0, 0);
    assert LE(0xBAAD, 2) == [0xAD] + LE(0xBA, 1);
    assert LE(0xBAADF0, 3) == [0xF0] + LE(0xBAAD, 2);
    assert LE(0xBAADF00D, 4) == [0x0D] + LE(0xBAADF0, 3);
  }

  function TriggerArgs(nativeValue: Balance, triggerValue: bool, msg: Text): Value
  {
    Tuple([U32(TriggerSelector), U32(nativeValue), Bool(triggerValue), Str(msg)])
  }

  /** `trigger::call`: a payable message. The native value goes to the pallet
      and is also encoded as the first argument. */
  function TriggerCall(nativeValue: Balance, triggerValue: bool, msg: Text): (c: ExposedCall)
    ensures c.markers == {IsMessage} && WellExposed(c) && c.output == TriggerOutput
    ensures NativeValue(c.call) == nativeValue
    ensures IntoInputData(c.call)
         == [0xEF, 0xBE, 0xAD, 0xDE] + LE(nativeValue, 4) + [BoolByte(triggerValue)] + CompactU32(|msg|) + msg
    ensures FromLE(IntoInputData(c.call)[4..8]) == NativeValue(c.call)
  {
    TriggerInputLayout(nativeValue, triggerValue, msg);
    ExposedCall(PayableCall(nativeValue, Encode(TriggerArgs(nativeValue, triggerValue, msg))), TriggerOutput, {IsMessage})
  }

  lemma TriggerInputLayout(nativeValue: Balance, triggerValue: bool, msg: Text)
    ensures Encode(TriggerArgs(nativeValue, triggerValue, msg))
         == [0xEF, 0xBE, 0xAD, 0xDE] + LE(nativeValue, 4) + [BoolByte(triggerValue)] + CompactU32(|msg|) + msg
    ensures FromLE(Encode(TriggerArgs(nativeValue, triggerValue, msg))[4..8]) == nativeValue
  {
    var input := Encode(TriggerArgs(nativeValue, triggerValue, msg));
    Fields4(U32(TriggerSelector), U32(nativeValue), Bool(triggerValue), Str(msg), U32T, U32T, BoolT, StrT);
    SelectorBytes();
    assert input[4..8] == LE(nativeValue, 4);
    Pow256Widths();
    FromLEOfLE(nativeValue, 4);
  }

  function TransferArgs(from: AccountId, to: AccountId, amount: Balance): Value
  {
    Tuple([U32(TransferSelector), Str(from), Str(to), U32(amount)])
  }

  /** `transfer::call`: an unpayable message. The amount is an argument to
      the contract, not a native value. */
  function TransferCall(from: AccountId, to: AccountId, amount: Balance): (c: ExposedCall)
    ensures c.markers == {IsMessage} && WellExposed(c) && c.output == TransferOutput
    ensures NativeValue(c.call) == 0
    ensures IntoInputData(c.call)
         == [0x02, 0xB0, 0xAD, 0x1B] + CompactU32(|from|) + from + CompactU32(|to|) + to + LE(amount, 4)
  {
    var input := Encode(TransferArgs(from, to, amount));
    Fields4(U32(TransferSelector), Str(from), Str(to), U32(amount), U32T, StrT, StrT, U32T);
    SelectorBytes();
    ExposedCall(UnpayableCall(input), TransferOutput, {IsMessage})
  }

  function WithTriggerValueArgs(triggerValue: bool): Value
  {
    Tuple([U32(WithTriggerValueSelector), Bool(triggerValue)])
  }

  /** `with_trigger_value::new`: an unpayable constructor whose input is five
      bytes, the selector and the flag. */
  function WithTriggerValueNew(triggerValue: bool): (c: ExposedCall)
    ensures c.markers == {IsConstructor} && WellExposed(c) && c.output == WithTriggerValueOutput
    ensures NativeValue(c.call) == 0
    ensures IntoInputData(c.call) == [0x0D, 0xF0, 0xAD, 0xBA, BoolByte(triggerValue)]
  {
    var input := Encode(WithTriggerValueArgs(triggerValue));
    Fields2(U32(WithTriggerValueSelector), Bool(triggerValue), U32T, BoolT);
    SelectorBytes();
    ExposedCall(UnpayableCall(input), WithTriggerValueOutput, {IsConstructor})
  }

  /** Each builder's input decodes back to exactly the tuple of its selector
      and arguments, with nothing left over. */
  lemma BuilderInputsRoundTrip(nativeValue: Balance, triggerValue: bool, msg: Text,
                               from: AccountId, to: AccountId, amount: Balance)
    ensures Decode(TriggerInputT, IntoInputData(TriggerCall(nativeValue, triggerValue, msg).call), Unbounded)
         == Success(Parsed(TriggerArgs(nativeValue, triggerValue, msg), []))
    ensures Decode(TransferInputT, IntoInputData(TransferCall(from, to, amount).call), Unbounded)
         == Success(Parsed(TransferArgs(from, to, amount), []))
    ensures Decode(WithTriggerValueInputT, IntoInputData(WithTriggerValueNew(triggerValue).call), Unbounded)
         == Success(Parsed(WithTriggerValueArgs(triggerValue), []))
  {
    var t := TriggerArgs(nativeValue, triggerValue, msg);
    var x := TransferArgs(from, to, amount);
    var w := WithTriggerValueArgs(triggerValue);
    assert Encode(t) + [] == Encode(t) && Encode(x) + [] == Encode(x) && Encode(w) + [] == Encode(w);
    Fields4(U32(TriggerSelector), U32(nativeValue), Bool(triggerValue), Str(msg), U32T, U32T, BoolT, StrT);
    Fields4(U32(TransferSelector), Str(from), Str(to), U32(amount), U32T, StrT, StrT, U32T);
    Fields2(U32(WithTriggerValueSelector), Bool(triggerValue), U32T, BoolT);
    DecodeEncode(t, TriggerInputT, [], Unbounded);
    DecodeEncode(x, TransferInputT, [], Unbounded);
    DecodeEncode(w, WithTriggerValueInputT, [], Unbounded);
  }

  /** The three builders' inputs start with pairwise distinct selectors. */
  lemma SelectorsDistinct(nativeValue: Balance, triggerValue: bool, msg: Text,
                          from: AccountId, to: AccountId, amount: Balance, flag: bool)
    ensures var a, b, c := IntoInputData(TriggerCall(nativeValue, triggerValue, msg).call),
                           IntoInputData(TransferCall(from, to, amount).call),
                           IntoInputData(WithTriggerValueNew(flag).call);
            a[..4] != b[..4] && a[..4] != c[..4] && b[..4] != c[..4]
  {
    var a := IntoInputData(TriggerCall(nativeValue, triggerValue, msg).call);
    var b := IntoInputData(TransferCall(from, to, amount).call);
    var c := IntoInputData(WithTriggerValueNew(flag).call);
    assert a[0] == 0xEF && b[0] == 0x02 && c[0] == 0x0D;
  }
}
