/**
 * A minimal model of the SCALE codec (Simple Concatenated Aggregate
 * Little-Endian), restricted to what the call builders and the output decoder
 * use: fixed-width little-endian `u32`/`u64`, one-byte `bool`,
 * compact-length-prefixed `str`/`String`, `Result` with its variant byte, and
 * tuples (of which `()` is the empty one).
 *
 * Decoding reads from the front of a byte slice and hands back the unread
 * rest, like the `&mut &[u8]` cursor the crate advances; nothing requires the
 * rest to be empty. A depth budget bounds the nesting the decoder will follow.
 */
module Scale {

  type byte = x: int | 0 <= x < 0x100
  type u32 = x: int | 0 <= x < 0x1_0000_0000
  type u64 = x: int | 0 <= x < 0x1_0000_0000_0000_0000
  type Bytes = seq<byte>

  /** A `str` or `String`, as its UTF-8 bytes. The codec refuses to encode a
      collection longer than `u32::MAX`, so no longer text is representable. */
  type Text = s: Bytes | |s| < 0x1_0000_0000

  /** The shapes of the values that are encoded or decoded. */
  datatype Ty =
    | BoolT
    | U32T
    | U64T
    | StrT
    | ResultT(okT: Ty, errT: Ty)
    | TupleT(elemTs: seq<Ty>)

  datatype Value =
    | Bool(b: bool)
    | U32(n32: u32)
    | U64(n64: u64)
    | Str(s: Text)
    | Ok(ok: Value)
    | Err(err: Value)
    | Tuple(elems: seq<Value>)

  /** `()` is the empty tuple: it occupies no bytes. */
  const UnitT: Ty := TupleT([])
  const Unit: Value := Tuple([])

  predicate HasType(v: Value, t: Ty)
    decreases v
  {
    match v
    case Bool(_) => t == BoolT
    case U32(_) => t == U32T
    case U64(_) => t == U64T
    case Str(_) => t == StrT
    case Ok(x) => t.ResultT? && HasType(x, t.okT)
    case Err(e) => t.ResultT? && HasType(e, t.errT)
    case Tuple(vs) => t.TupleT? && AllHaveTypes(vs, t.elemTs)
  }

  predicate AllHaveTypes(vs: seq<Value>, ts: seq<Ty>)
    decreases vs
  {
    if vs == [] then ts == []
    else ts != [] && HasType(vs[0], ts[0]) && AllHaveTypes(vs[1..], ts[1..])
  }

  /** How deeply `Result` layers nest along the encoded path of a value. Each
      layer costs one unit of the decoder's depth budget. */
  function Depth(v: Value): nat
    decreases v
  {
    match v
    case Ok(x) => 1 + Depth(x)
    case Err(e) => 1 + Depth(e)
    case Tuple(vs) => DepthAll(vs)
    case _ => 0
  }

  function DepthAll(vs: seq<Value>): nat
    decreases vs
  {
    if vs == [] then 0
    else
      var d, ds := Depth(vs[0]), DepthAll(vs[1..]);
      if d < ds then ds else d
  }

  // ---------------------------------------------------------------------------
  // Little-endian fixed-width integers

  function Pow256(width: nat): (p: nat)
    ensures p > 0
  {
    if width == 0 then 1 else 256 * Pow256(width - 1)
  }

  /** The `width` low bytes of `n`, least significant first. */
  function LE(n: nat, width: nat): (r: Bytes)
    ensures |r| == width
  {
    if width == 0 then [] else [n % 256] + LE(n / 256, width - 1)
  }

  /** The number whose little-endian bytes are `bs`. */
  function FromLE(bs: Bytes): (n: nat)
    ensures n < Pow256(|bs|)
  {
    if bs == [] then 0 else bs[0] + 256 * FromLE(bs[1..])
  }

  lemma {:induction false} FromLEOfLE(n: nat, width: nat)
    requires n < Pow256(width)
    ensures FromLE(LE(n, width)) == n
  {
    if width > 0 {
      FromLEOfLE(n / 256, width - 1);
      assert LE(n, width)[1..] == LE(n / 256, width - 1);
    }
  }

  lemma {:induction false} LEOfFromLE(bs: Bytes)
    ensures LE(FromLE(bs), |bs|) == bs
  {
    if bs != [] {
      LEOfFromLE(bs[1..]);
      var n := FromLE(bs);
      assert n % 256 == bs[0] && n / 256 == FromLE(bs[1..]);
      assert bs == [bs[0]] + bs[1..];
    }
  }

  lemma FromLELowBits(bs: Bytes)
    requires bs != []
    ensures FromLE(bs) % 4 == bs[0] % 4
  {
  }

  lemma Pow256Widths()
    ensures Pow256(2) == 0x1_0000
    ensures Pow256(4) == 0x1_0000_0000
    ensures Pow256(8) == 0x1_0000_0000_0000_0000
  {
    assert Pow256(1) == 0x100;
    assert Pow256(3) == 0x100_0000;
    assert Pow256(6) == 0x1_0000_0000_0000;
  }

  // ---------------------------------------------------------------------------
  // Decoding results

  datatype DecodeError =
    | NotEnoughData
    | InvalidBool(found: byte)
    | InvalidResultVariant(found: byte)
    | CompactOutOfRange
    | CompactUnexpectedPrefix
    | DepthLimitReached

  datatype DecodeResult<+T> = Success(value: T) | Failure(error: DecodeError) {
    predicate IsFailure() { Failure? }
    function PropagateFailure<U>(): DecodeResult<U>
      requires Failure?
    {
      Failure(error)
    }
    function Extract(): T
      requires Success?
    {
      value
    }
  }

  /** A decoded value and the input still unread after it. */
  datatype Parsed<+T> = Parsed(value: T, rest: Bytes)

  predicate IsSuffix(rest: Bytes, input: Bytes) {
    |rest| <= |input| && input[|input| - |rest|..] == rest
  }

  lemma SuffixOfSuffix(c: Bytes, b: Bytes, a: Bytes)
    requires IsSuffix(c, b) && IsSuffix(b, a)
    ensures IsSuffix(c, a)
  {
    assert a[|a| - |c|..] == a[|a| - |b|..][|b| - |c|..];
  }

  /** The depth budget: `Unbounded` for `Decode::decode`, `Limit(n)` for
      `decode_with_depth_limit(n, ..)`. */
  datatype Budget = Unbounded | Limit(remaining: nat)

  predicate Allows(budget: Budget, depth: nat) {
    budget.Limit? ==> depth <= budget.remaining
  }

  /** The budget left for what a `Result` layer contains. */
  function Descend(budget: Budget): Budget
    requires budget != Limit(0)
  {
    match budget
    case Unbounded => Unbounded
    case Limit(n) => Limit(n - 1)
  }

  // ---------------------------------------------------------------------------
  // Compact<u32>: the length prefix of `str` and `String`

  /** The canonical compact encoding: one byte below 2^6, two bytes below
      2^14, four bytes below 2^30, and otherwise the marker 0b11 followed by
      the four little-endian bytes of the value. The low two bits of the first
      byte say which mode is in use. */
  /** At most four bytes read as a number fit in a `u32`. */
  lemma FromLEFits(bs: Bytes)
    requires |bs| <= 4
    ensures FromLE(bs) < 0x1_0000_0000
  {
    if bs != [] {
      FromLEFits(bs[1..]);
    }
  }

  function CompactU32(n: u32): (r: Bytes)
  {
    if n < 0x40 then [n * 4]
    else if n < 0x4000 then LE(n * 4 + 1, 2)
    else if n < 0x4000_0000 then LE(n * 4 + 2, 4)
    else [3] + LE(n, 4)
  }

  /** Decodes a compact `u32`, refusing any encoding that is not the
      canonical (shortest) one. */
  function DecodeCompactU32(input: Bytes): (r: DecodeResult<Parsed<u32>>)
    ensures r.Success? ==> IsSuffix(r.value.rest, input)
  {
    if |input| == 0 then Failure(NotEnoughData)
    else
      var prefix := input[0];
      if prefix % 4 == 0 then Success(Parsed(prefix / 4, input[1..]))
      else if prefix % 4 == 1 then
        if |input| < 2 then Failure(NotEnoughData)
        else
          FromLEFits(input[..2]);
          var x := FromLE(input[..2]) / 4;
          if 0x40 <= x then Success(Parsed(x, input[2..])) else Failure(CompactOutOfRange)
      else if prefix % 4 == 2 then
        if |input| < 4 then Failure(NotEnoughData)
        else
          FromLEFits(input[..4]);
          var x := FromLE(input[..4]) / 4;
          if 0x4000 <= x then Success(Parsed(x, input[4..])) else Failure(CompactOutOfRange)
      else if prefix / 4 != 0 then Failure(CompactUnexpectedPrefix)
      else if |input| < 5 then Failure(NotEnoughData)
      else
        FromLEFits(input[1..5]);
        var x := FromLE(input[1..5]);
        if 0x4000_0000 <= x then Success(Parsed(x, input[5..])) else Failure(CompactOutOfRange)
  }

  lemma DecodeCompactOfCompact(n: u32, rest: Bytes)
    ensures DecodeCompactU32(CompactU32(n) + rest) == Success(Parsed(n, rest))
  {
    if n < 0x40 {
      assert (CompactU32(n) + rest)[1..] == rest;
    } else if n < 0x4000 {
      DecodeTwoByteMode(n, rest);
    } else if n < 0x4000_0000 {
      DecodeFourByteMode(n, rest);
    } else {
      DecodeBigMode(n, rest);
    }
  }

  lemma DecodeTwoByteMode(n: u32, rest: Bytes)
    requires 0x40 <= n < 0x4000
    ensures DecodeCompactU32(CompactU32(n) + rest) == Success(Parsed(n, rest))
  {
    var input := LE(n * 4 + 1, 2) + rest;
    assert input[..2] == LE(n * 4 + 1, 2) && input[2..] == rest;
    Pow256Widths();
    FromLEOfLE(n * 4 + 1, 2);
    FromLELowBits(input[..2]);
  }

  lemma DecodeFourByteMode(n: u32, rest: Bytes)
    requires 0x4000 <= n < 0x4000_0000
    ensures DecodeCompactU32(CompactU32(n) + rest) == Success(Parsed(n, rest))
  {
    var input := LE(n * 4 + 2, 4) + rest;
    assert input[..4] == LE(n * 4 + 2, 4) && input[4..] == rest;
    Pow256Widths();
    FromLEOfLE(n * 4 + 2, 4);
    FromLELowBits(input[..4]);
  }

  lemma DecodeBigMode(n: u32, rest: Bytes)
    requires 0x4000_0000 <= n
    ensures DecodeCompactU32(CompactU32(n) + rest) == Success(Parsed(n, rest))
  {
    var input := [3] + LE(n, 4) + rest;
    assert input[1..5] == LE(n, 4) && input[5..] == rest;
    Pow256Widths();
    FromLEOfLE(n, 4);
  }

  lemma CompactOfDecodeCompact(input: Bytes)
    requires DecodeCompactU32(input).Success?
    ensures input == CompactU32(DecodeCompactU32(input).value.value) + DecodeCompactU32(input).value.rest
  {
    var prefix := input[0];
    if prefix % 4 == 0 {
      assert input == [input[0]] + input[1..];
    } else if prefix % 4 == 1 {
      CompactWordCanonical(input[..2], 1);
      assert input == input[..2] + input[2..];
    } else if prefix % 4 == 2 {
      CompactWordCanonical(input[..4], 2);
      assert input == input[..4] + input[4..];
    } else {
      Pow256Widths();
      LEOfFromLE(input[1..5]);
      assert input == [input[0]] + input[1..5] + input[5..];
    }
  }

  /** In the two- and four-byte modes the word, low two bits included, is the
      little-endian encoding of four times the length plus the mode. */
  lemma CompactWordCanonical(word: Bytes, mode: nat)
    requires (mode == 1 && |word| == 2) || (mode == 2 && |word| == 4)
    requires word[0] % 4 == mode
    ensures FromLE(word) == FromLE(word) / 4 * 4 + mode
    ensures LE(FromLE(word) / 4 * 4 + mode, |word|) == word
  {
    FromLELowBits(word);
    LEOfFromLE(word);
  }


  lemma CompactTruncated(n: u32, k: nat)
    requires k < |CompactU32(n)|
    ensures DecodeCompactU32(CompactU32(n)[..k]).Failure?
  {
  }

  // ---------------------------------------------------------------------------
  // Decoders of the primitives

  function DecodeBool(input: Bytes): (r: DecodeResult<Parsed<bool>>)
    ensures r.Success? ==> IsSuffix(r.value.rest, input)
  {
    if |input| == 0 then Failure(NotEnoughData)
    else if input[0] == 0 then Success(Parsed(false, input[1..]))
    else if input[0] == 1 then Success(Parsed(true, input[1..]))
    else Failure(InvalidBool(input[0]))
  }

  /** Reads a `width`-byte little-endian unsigned integer. */
  function DecodeFixed(input: Bytes, width: nat): (r: DecodeResult<Parsed<nat>>)
    ensures r.Success? ==> r.value.value < Pow256(width)
    ensures r.Success? ==> IsSuffix(r.value.rest, input)
  {
    if |input| < width then Failure(NotEnoughData)
    else Success(Parsed(FromLE(input[..width]), input[width..]))
  }

  /** A compact length, then that many bytes. */
  function DecodeStr(input: Bytes): (r: DecodeResult<Parsed<Text>>)
    ensures r.Success? ==> IsSuffix(r.value.rest, input)
  {
    var len :- DecodeCompactU32(input);
    if |len.rest| < len.value then Failure(NotEnoughData)
    else
      SuffixOfSuffix(len.rest[len.value..], len.rest, input);
      Success(Parsed(len.rest[..len.value], len.rest[len.value..]))
  }

  // ---------------------------------------------------------------------------
  // Encoding and decoding values

  function Encode(v: Value): Bytes
    decreases v
  {
    match v
    case Bool(b) => [if b then 1 else 0]
    case U32(n) => LE(n, 4)
    case U64(n) => LE(n, 8)
    case Str(s) => CompactU32(|s|) + s
    case Ok(x) => [0] + Encode(x)
    case Err(e) => [1] + Encode(e)
    case Tuple(vs) => EncodeAll(vs)
  }

  /** A tuple is the concatenation of its fields' encodings. */
  function EncodeAll(vs: seq<Value>): Bytes
    decreases vs
  {
    if vs == [] then [] else Encode(vs[0]) + EncodeAll(vs[1..])
  }

  /** Decodes a value of shape `t` from the front of `input`. */
  function Decode(t: Ty, input: Bytes, budget: Budget): (r: DecodeResult<Parsed<Value>>)
    ensures r.Success? ==> HasType(r.value.value, t)
    ensures r.Success? ==> Allows(budget, Depth(r.value.value))
    ensures r.Success? ==> IsSuffix(r.value.rest, input)
    decreases t, 1
  {
    match t
    case BoolT =>
      var p :- DecodeBool(input);
      Success(Parsed(Bool(p.value), p.rest))
    case U32T =>
      Pow256Widths();
      var p :- DecodeFixed(input, 4);
      Success(Parsed(U32(p.value), p.rest))
    case U64T =>
      Pow256Widths();
      var p :- DecodeFixed(input, 8);
      Success(Parsed(U64(p.value), p.rest))
    case StrT =>
      var p :- DecodeStr(input);
      Success(Parsed(Str(p.value), p.rest))
    case ResultT(_, _) =>
      DecodeVariant(t, input, budget)
    case TupleT(ts) =>
      var p :- DecodeAll(ts, input, budget);
      Success(Parsed(Tuple(p.value), p.rest))
  }

  /** One `Result` layer: it first takes a level from the budget, then reads
      the variant byte, 0 for `Ok` and 1 for `Err`, then the payload. */
  function DecodeVariant(t: Ty, input: Bytes, budget: Budget): (r: DecodeResult<Parsed<Value>>)
    requires t.ResultT?
    ensures r.Success? ==> HasType(r.value.value, t)
    ensures r.Success? ==> Allows(budget, Depth(r.value.value))
    ensures r.Success? ==> IsSuffix(r.value.rest, input)
    decreases t, 0
  {
    if budget == Limit(0) then Failure(DepthLimitReached)
    else if |input| == 0 then Failure(NotEnoughData)
    else if input[0] == 0 then
      var p :- Decode(t.okT, input[1..], Descend(budget));
      SuffixOfSuffix(p.rest, input[1..], input);
      Success(Parsed(Ok(p.value), p.rest))
    else if input[0] == 1 then
      var p :- Decode(t.errT, input[1..], Descend(budget));
      SuffixOfSuffix(p.rest, input[1..], input);
      Success(Parsed(Err(p.value), p.rest))
    else Failure(InvalidResultVariant(input[0]))
  }

  /** Decodes the fields of a tuple one after the other. */
  function DecodeAll(ts: seq<Ty>, input: Bytes, budget: Budget): (r: DecodeResult<Parsed<seq<Value>>>)
    ensures r.Success? ==> AllHaveTypes(r.value.value, ts)
    ensures r.Success? ==> Allows(budget, DepthAll(r.value.value))
    ensures r.Success? ==> IsSuffix(r.value.rest, input)
    decreases ts, 2
  {
    if ts == [] then Success(Parsed([], input))
    else
      var head :- Decode(ts[0], input, budget);
      var tail :- DecodeAll(ts[1..], head.rest, budget);
      SuffixOfSuffix(tail.rest, head.rest, input);
      assert ([head.value] + tail.value)[1..] == tail.value;
      Success(Parsed([head.value] + tail.value, tail.rest))
  }
}
