/**
 * What the codec promises: decoding is the inverse of encoding (in both
 * directions, so encodings are canonical), trailing bytes are left untouched,
 * the depth-limited decoder agrees with the unlimited one whenever it
 * succeeds and fails exactly when the value nests deeper than the limit, and
 * a truncated encoding never decodes.
 */
module ScaleLemmas {
  import opened Scale

  /** Round trip: decoding the encoding of a well-typed value, followed by any
      bytes at all, yields the value and leaves those bytes unread, provided
      the budget covers the value's depth. */
  lemma {:induction false} DecodeEncode(v: Value, t: Ty, rest: Bytes, budget: Budget)
    requires HasType(v, t) && Allows(budget, Depth(v))
    ensures Decode(t, Encode(v) + rest, budget) == Success(Parsed(v, rest))
    decreases v
  {
    match v
    case Bool(b) => DecodeEncodeBool(b, rest, budget);
    case U32(n) => DecodeEncodeU32(n, rest, budget);
    case U64(n) => DecodeEncodeU64(n, rest, budget);
    case Str(s) => DecodeEncodeStr(s, rest, budget);
    case Ok(x) =>
      DecodeEncode(x, t.okT, rest, Descend(budget));
      VariantLayout(0, x, rest);
      DecodeVariantOk(t, Encode(x) + rest, budget, x, rest);
    case Err(e) =>
      DecodeEncode(e, t.errT, rest, Descend(budget));
      VariantLayout(1, e, rest);
      DecodeVariantErr(t, Encode(e) + rest, budget, e, rest);
    case Tuple(vs) =>
      DecodeAllEncodeAll(vs, t.elemTs, rest, budget);
  }

  lemma DecodeEncodeBool(b: bool, rest: Bytes, budget: Budget)
    ensures Decode(BoolT, Encode(Bool(b)) + rest, budget) == Success(Parsed(Bool(b), rest))
  {
    assert (Encode(Bool(b)) + rest)[1..] == rest;
  }

  lemma DecodeEncodeU32(n: u32, rest: Bytes, budget: Budget)
    ensures Decode(U32T, Encode(U32(n)) + rest, budget) == Success(Parsed(U32(n), rest))
  {
    var input := LE(n, 4) + rest;
    assert input[..4] == LE(n, 4) && input[4..] == rest;
    Pow256Widths();
    FromLEOfLE(n, 4);
  }

  lemma DecodeEncodeU64(n: u64, rest: Bytes, budget: Budget)
    ensures Decode(U64T, Encode(U64(n)) + rest, budget) == Success(Parsed(U64(n), rest))
  {
    var input := LE(n, 8) + rest;
    assert input[..8] == LE(n, 8) && input[8..] == rest;
    Pow256Widths();
    FromLEOfLE(n, 8);
  }

  lemma DecodeEncodeStr(s: Text, rest: Bytes, budget: Budget)
    ensures Decode(StrT, Encode(Str(s)) + rest, budget) == Success(Parsed(Str(s), rest))
  {
    assert Encode(Str(s)) + rest == CompactU32(|s|) + (s + rest);
    DecodeCompactOfCompact(|s|, s + rest);
    assert (s + rest)[..|s|] == s && (s + rest)[|s|..] == rest;
  }

  /** One `Result` layer, given the round trip for its payload: the variant
      byte 0x00 (`Ok`) or 0x01 (`Err`) followed by the payload's bytes. */
  lemma DecodeVariantOk(t: Ty, payload: Bytes, budget: Budget, x: Value, rest: Bytes)
    requires t.ResultT? && budget != Limit(0)
    requires Decode(t.okT, payload, Descend(budget)) == Success(Parsed(x, rest))
    ensures DecodeVariant(t, [0] + payload, budget) == Success(Parsed(Ok(x), rest))
  {
    assert ([0] + payload)[1..] == payload;
  }

  lemma VariantLayout(tag: byte, x: Value, rest: Bytes)
    requires tag <= 1
    ensures Encode(if tag == 0 then Ok(x) else Err(x)) + rest == [tag] + (Encode(x) + rest)
  {
  }

  lemma DecodeVariantErr(t: Ty, payload: Bytes, budget: Budget, e: Value, rest: Bytes)
    requires t.ResultT? && budget != Limit(0)
    requires Decode(t.errT, payload, Descend(budget)) == Success(Parsed(e, rest))
    ensures DecodeVariant(t, [1] + payload, budget) == Success(Parsed(Err(e), rest))
  {
    assert ([1] + payload)[1..] == payload;
  }

  lemma {:induction false} DecodeAllEncodeAll(vs: seq<Value>, ts: seq<Ty>, rest: Bytes, budget: Budget)
    requires AllHaveTypes(vs, ts) && Allows(budget, DepthAll(vs))
    ensures DecodeAll(ts, EncodeAll(vs) + rest, budget) == Success(Parsed(vs, rest))
    decreases vs
  {
    if vs != [] {
      assert ts != [];
      FieldsStep(vs, ts);
      var tailBytes := EncodeAll(vs[1..]) + rest;
      assert EncodeAll(vs) + rest == Encode(vs[0]) + tailBytes;
      DecodeEncode(vs[0], ts[0], tailBytes, budget);
      DecodeAllEncodeAll(vs[1..], ts[1..], rest, budget);
      DecodeAllCons(ts, EncodeAll(vs) + rest, budget, vs[0], tailBytes, vs[1..], rest);
      assert [vs[0]] + vs[1..] == vs;
    }
  }

  /** A tuple decodes to its first field followed by the remaining fields. */
  lemma DecodeAllCons(ts: seq<Ty>, input: Bytes, budget: Budget,
                      head: Value, mid: Bytes, tail: seq<Value>, rest: Bytes)
    requires ts != []
    requires Decode(ts[0], input, budget) == Success(Parsed(head, mid))
    requires DecodeAll(ts[1..], mid, budget) == Success(Parsed(tail, rest))
    ensures DecodeAll(ts, input, budget) == Success(Parsed([head] + tail, rest))
  {
  }

  /** Canonical encoding: whatever the decoder accepts is exactly the
      encoding of the value it returns, followed by the unread rest. So no
      two byte strings decode to the same value, and the decoder never
      consumes a byte it does not account for. */
  lemma {:induction false} EncodeDecode(t: Ty, input: Bytes, budget: Budget)
    requires Decode(t, input, budget).Success?
    ensures var p := Decode(t, input, budget).value; input == Encode(p.value) + p.rest
    decreases t, 1
  {
    match t
    case BoolT =>
      assert input == [input[0]] + input[1..];
    case U32T =>
      EncodeDecodeFixed(input, 4);
    case U64T =>
      EncodeDecodeFixed(input, 8);
    case StrT =>
      EncodeDecodeStr(input);
    case ResultT(_, _) =>
      EncodeDecodeVariant(t, input, budget);
    case TupleT(ts) =>
      EncodeDecodeAll(ts, input, budget);
  }

  lemma EncodeDecodeFixed(input: Bytes, width: nat)
    requires DecodeFixed(input, width).Success?
    ensures var p := DecodeFixed(input, width).value; input == LE(p.value, width) + p.rest
  {
    LEOfFromLE(input[..width]);
    assert input == input[..width] + input[width..];
  }

  lemma EncodeDecodeStr(input: Bytes)
    requires DecodeStr(input).Success?
    ensures var p := DecodeStr(input).value; input == CompactU32(|p.value|) + p.value + p.rest
  {
    CompactOfDecodeCompact(input);
    var len := DecodeCompactU32(input).value;
    assert len.rest == len.rest[..len.value] + len.rest[len.value..];
  }

  lemma {:induction false} EncodeDecodeVariant(t: Ty, input: Bytes, budget: Budget)
    requires t.ResultT? && DecodeVariant(t, input, budget).Success?
    ensures var p := DecodeVariant(t, input, budget).value; input == Encode(p.value) + p.rest
    decreases t, 0
  {
    DecodeVariantSuccess(t, input, budget);
    assert input == [input[0]] + input[1..];
    if input[0] == 0 {
      var q := Decode(t.okT, input[1..], Descend(budget)).value;
      EncodeDecode(t.okT, input[1..], Descend(budget));
      VariantLayout(0, q.value, q.rest);
    } else {
      var q := Decode(t.errT, input[1..], Descend(budget)).value;
      EncodeDecode(t.errT, input[1..], Descend(budget));
      VariantLayout(1, q.value, q.rest);
    }
  }

  /** What a successful `Result` layer read: the variant byte 0x00 with an
      `Ok` payload or 0x01 with an `Err` payload, under a budget that had a
      level left. */
  lemma DecodeVariantSuccess(t: Ty, input: Bytes, budget: Budget)
    requires t.ResultT? && DecodeVariant(t, input, budget).Success?
    ensures budget != Limit(0) && |input| > 0 && input[0] <= 1
    ensures input[0] == 0 ==>
              var q := Decode(t.okT, input[1..], Descend(budget));
              q.Success? && DecodeVariant(t, input, budget).value == Parsed(Ok(q.value.value), q.value.rest)
    ensures input[0] == 1 ==>
              var q := Decode(t.errT, input[1..], Descend(budget));
              q.Success? && DecodeVariant(t, input, budget).value == Parsed(Err(q.value.value), q.value.rest)
  {
  }

  lemma {:induction false} EncodeDecodeAll(ts: seq<Ty>, input: Bytes, budget: Budget)
    requires DecodeAll(ts, input, budget).Success?
    ensures var p := DecodeAll(ts, input, budget).value; input == EncodeAll(p.value) + p.rest
    decreases ts, 2
  {
    if ts != [] {
      var head := Decode(ts[0], input, budget).value;
      var tail := DecodeAll(ts[1..], head.rest, budget).value;
      EncodeDecode(ts[0], input, budget);
      EncodeDecodeAll(ts[1..], head.rest, budget);
      var vs := [head.value] + tail.value;
      assert vs[0] == head.value && vs[1..] == tail.value;
    }
  }

  /** Whenever the depth-limited decoder succeeds, the unlimited decoder
      gives the same value and leaves the same rest: the two share one
      layout and differ only in the guard. */
  lemma BoundedAgreesWithUnbounded(t: Ty, input: Bytes, budget: Budget)
    requires Decode(t, input, budget).Success?
    ensures Decode(t, input, Unbounded) == Decode(t, input, budget)
  {
    var p := Decode(t, input, budget).value;
    EncodeDecode(t, input, budget);
    DecodeEncode(p.value, t, p.rest, Unbounded);
  }

  /** Depth-limit enforcement: the encoding of a value that nests `Depth(v)`
      deep decodes under `Limit(limit)` exactly when `Depth(v) <= limit`, and
      then to the value itself. */
  lemma DepthLimitExact(v: Value, t: Ty, rest: Bytes, limit: nat)
    requires HasType(v, t)
    ensures Decode(t, Encode(v) + rest, Limit(limit)).Success? <==> Depth(v) <= limit
    ensures Depth(v) <= limit ==> Decode(t, Encode(v) + rest, Limit(limit)) == Success(Parsed(v, rest))
  {
    var input := Encode(v) + rest;
    if Depth(v) <= limit {
      DecodeEncode(v, t, rest, Limit(limit));
    } else if Decode(t, input, Limit(limit)).Success? {
      BoundedAgreesWithUnbounded(t, input, Limit(limit));
      DecodeEncode(v, t, rest, Unbounded);
      assert false;
    }
  }

  /** A decode of `input` either fails or returns `v` followed by `rest`,
      when `input` is the encoding of `v` followed by `rest`. */
  lemma DecodeOfEncodingFailsOrMatches(v: Value, t: Ty, rest: Bytes, budget: Budget)
    requires HasType(v, t)
    ensures Decode(t, Encode(v) + rest, budget).Failure?
         || Decode(t, Encode(v) + rest, budget) == Success(Parsed(v, rest))
  {
    if Decode(t, Encode(v) + rest, budget).Success? {
      BoundedAgreesWithUnbounded(t, Encode(v) + rest, budget);
      DecodeEncode(v, t, rest, Unbounded);
    }
  }

  /** Truncated input: every proper prefix of an encoding fails to decode,
      under any budget; in particular the decoder never reads past the end
      of the bytes it is given. */
  lemma {:induction false} DecodeTruncated(v: Value, t: Ty, k: nat, budget: Budget)
    requires HasType(v, t) && k < |Encode(v)|
    ensures Decode(t, Encode(v)[..k], budget).Failure?
    decreases v
  {
    var input := Encode(v)[..k];
    match v
    case Bool(_) =>
    case U32(_) =>
    case U64(_) =>
    case Str(s) =>
      var c := CompactU32(|s|);
      PrefixOfConcat(c, s, k);
      if k < |c| {
        CompactTruncated(|s|, k);
      } else {
        DecodeCompactOfCompact(|s|, s[..k - |c|]);
      }
    case Ok(x) =>
      if k > 0 && budget != Limit(0) {
        assert input[1..] == Encode(x)[..k - 1];
        DecodeTruncated(x, t.okT, k - 1, Descend(budget));
      }
    case Err(e) =>
      if k > 0 && budget != Limit(0) {
        assert input[1..] == Encode(e)[..k - 1];
        DecodeTruncated(e, t.errT, k - 1, Descend(budget));
      }
    case Tuple(vs) =>
      DecodeAllTruncated(vs, t.elemTs, k, budget);
  }

  lemma {:induction false} DecodeAllTruncated(vs: seq<Value>, ts: seq<Ty>, k: nat, budget: Budget)
    requires AllHaveTypes(vs, ts) && k < |EncodeAll(vs)|
    ensures DecodeAll(ts, EncodeAll(vs)[..k], budget).Failure?
    decreases vs
  {
    assert vs != [] && ts != [];
    var head := Encode(vs[0]);
    FieldsStep(vs, ts);
    PrefixOfConcat(head, EncodeAll(vs[1..]), k);
    if k < |head| {
      DecodeTruncated(vs[0], ts[0], k, budget);
      DecodeAllNeedsHead(ts, head[..k], budget);
    } else {
      var tailPrefix := EncodeAll(vs[1..])[..k - |head|];
      DecodeOfEncodingFailsOrMatches(vs[0], ts[0], tailPrefix, budget);
      DecodeAllTruncated(vs[1..], ts[1..], k - |head|, budget);
      DecodeAllNeedsHead(ts, head + tailPrefix, budget);
    }
  }

  /** A prefix of two byte strings side by side. */
  lemma PrefixOfConcat(a: Bytes, b: Bytes, k: nat)
    requires k <= |a + b|
    ensures k <= |a| ==> (a + b)[..k] == a[..k]
    ensures k >= |a| ==> (a + b)[..k] == a + b[..k - |a|]
  {
    if k <= |a| {
      assert (a + b)[..k] == a[..k];
    } else {
      assert (a + b)[..k] == a + b[..k - |a|];
    }
  }

  /** A tuple decodes only if its first field does and the remaining fields
      decode from what the first one leaves. */
  lemma DecodeAllNeedsHead(ts: seq<Ty>, input: Bytes, budget: Budget)
    requires ts != []
    ensures DecodeAll(ts, input, budget).Success? ==>
              Decode(ts[0], input, budget).Success?
              && DecodeAll(ts[1..], Decode(ts[0], input, budget).value.rest, budget).Success?
  {
  }

  /** One step of a tuple: its first field, then the others. */
  lemma FieldsStep(vs: seq<Value>, ts: seq<Ty>)
    requires vs != [] && ts != []
    ensures EncodeAll(vs) == Encode(vs[0]) + EncodeAll(vs[1..])
    ensures AllHaveTypes(vs, ts) <== HasType(vs[0], ts[0]) && AllHaveTypes(vs[1..], ts[1..])
  {
  }

  /** A tuple's encoding is its fields' encodings side by side, and it has a
      tuple type when each field has the field type (two and four fields). */
  lemma Fields2(a: Value, b: Value, ta: Ty, tb: Ty)
    ensures Encode(Tuple([a, b])) == Encode(a) + Encode(b)
    ensures HasType(Tuple([a, b]), TupleT([ta, tb])) <== HasType(a, ta) && HasType(b, tb)
  {
    var vs, ts := [a, b], [ta, tb];
    assert vs[1..] == [b] && ts[1..] == [tb];
    assert [b][1..] == [] && [tb][1..] == [];
    FieldsStep([b], [tb]);
    FieldsStep(vs, ts);
    assert Encode(b) + [] == Encode(b);
  }

  lemma Fields4(a: Value, b: Value, c: Value, d: Value, ta: Ty, tb: Ty, tc: Ty, td: Ty)
    ensures Encode(Tuple([a, b, c, d])) == Encode(a) + Encode(b) + Encode(c) + Encode(d)
    ensures HasType(Tuple([a, b, c, d]), TupleT([ta, tb, tc, td]))
        <== HasType(a, ta) && HasType(b, tb) && HasType(c, tc) && HasType(d, td)
  {
    Fields2(c, d, tc, td);
    var vs3, ts3 := [b, c, d], [tb, tc, td];
    assert vs3[1..] == [c, d] && ts3[1..] == [tc, td];
    FieldsStep(vs3, ts3);
    var vs4, ts4 := [a, b, c, d], [ta, tb, tc, td];
    assert vs4[1..] == vs3 && ts4[1..] == ts3;
    FieldsStep(vs4, ts4);
  }
}
