/** src/tuple.rs: tuples of byte strings, encoded element behind element. */
module TupleCodec {
  import opened Bytes
  import opened Memcmpable

  type Tuple = seq<Bytes>

  function EncodeTuple(t: Tuple): Bytes {
    if t == [] then [] else EncodeElem(t[0]) + EncodeTuple(t[1..])
  }

  /** All the elements in `src`; None where the code panics. */
  function DecodeTuple(src: Bytes): Option<Tuple>
    decreases |src|
  {
    if src == [] then Some([])
    else match DecodeElem(src)
      case None => None
      case Some((elem, rest)) =>
        match DecodeTuple(rest)
        case None => None
        case Some(elems) => Some([elem] + elems)
  }

  /** Tuples compare element by element; a proper prefix comes first. */
  predicate TupleLt(t: Tuple, u: Tuple) {
    u != [] && (t == [] || Lt(t[0], u[0]) || (t[0] == u[0] && TupleLt(t[1..], u[1..])))
  }

  /** `tuple::encode`, which appends to `bytes`. */
  method Encode(elems: Tuple, prefix: Bytes) returns (bytes: Bytes)
    ensures bytes == prefix + EncodeTuple(elems)
  {
    hide EncodeElem;
    bytes := prefix;
    for i := 0 to |elems|
      invariant bytes + EncodeTuple(elems[i..]) == prefix + EncodeTuple(elems)
    {
      ghost var before := bytes;
      bytes := Memcmpable.Encode(elems[i], bytes);
      assert elems[i..][1..] == elems[i + 1..];
      assert before + EncodeTuple(elems[i..]) == bytes + EncodeTuple(elems[i + 1..]);
    }
  }

  /** `tuple::decode`, which pushes onto `elems`; None where the code panics. */
  method Decode(bytes: Bytes, prefix: Tuple) returns (r: Option<Tuple>)
    ensures r.Some? <==> DecodeTuple(bytes).Some?
    ensures r.Some? ==> r.value == prefix + DecodeTuple(bytes).value
  {
    var rest, elems := bytes, prefix;
    while rest != []
      invariant DecodeTuple(rest).Some? <==> DecodeTuple(bytes).Some?
      invariant DecodeTuple(rest).Some? ==> elems + DecodeTuple(rest).value == prefix + DecodeTuple(bytes).value
      decreases |rest|
    {
      var e := Memcmpable.Decode(rest, []);
      if e.None? {
        return None;
      }
      ghost var before := elems;
      elems := elems + [e.value.0];
      if DecodeTuple(rest).Some? {
        assert e.value.0 == DecodeElem(rest).value.0;
        assert DecodeTuple(rest).value == [e.value.0] + DecodeTuple(e.value.1).value;
        assert before + DecodeTuple(rest).value == elems + DecodeTuple(e.value.1).value;
      }
      rest := e.value.1;
    }
    return Some(elems);
  }

  /** Round trip over every element list. */
  lemma {:induction false} DecodeEncode(t: Tuple)
    ensures DecodeTuple(EncodeTuple(t)) == Some(t)
  {
    if t != [] {
      Memcmpable.DecodeEncode(t[0], EncodeTuple(t[1..]));
      DecodeEncode(t[1..]);
      assert t == [t[0]] + t[1..];
    }
  }

  /** Encoding is injective. */
  lemma EncodeInjective(t: Tuple, u: Tuple)
    requires EncodeTuple(t) == EncodeTuple(u)
    ensures t == u
  {
    DecodeEncode(t);
    DecodeEncode(u);
  }

  /** Encoding two lists of elements one behind the other encodes their concatenation. */
  lemma {:induction false} EncodeAppend(t: Tuple, u: Tuple)
    ensures EncodeTuple(t + u) == EncodeTuple(t) + EncodeTuple(u)
  {
    if t == [] {
      assert t + u == u;
    } else {
      EncodeAppend(t[1..], u);
      assert (t + u)[1..] == t[1..] + u && (t + u)[0] == t[0];
      assert EncodeTuple(t + u) == EncodeElem(t[0]) + (EncodeTuple(t[1..]) + EncodeTuple(u));
    }
  }

  /** Where an element is in the encoding: behind what is before it, as it is encoded by itself. */
  lemma ElementInPlace(t: Tuple, i: nat)
    requires i < |t|
    ensures EncodeTuple(t) == EncodeTuple(t[..i]) + EncodeElem(t[i]) + EncodeTuple(t[i + 1..])
  {
    assert t == t[..i] + t[i..] && t[i..][1..] == t[i + 1..];
    EncodeAppend(t[..i], t[i..]);
  }

  lemma {:induction false} TupleLtEncodesBelow(t: Tuple, u: Tuple)
    requires TupleLt(t, u)
    ensures Lt(EncodeTuple(t), EncodeTuple(u))
  {
    if t == [] {
      assert |EncodeElem(u[0])| > 0;
    } else if Lt(t[0], u[0]) {
      EncodeKeepsOrder(t[0], u[0], EncodeTuple(t[1..]), EncodeTuple(u[1..]));
    } else {
      TupleLtEncodesBelow(t[1..], u[1..]);
      LtCommonPrefix(EncodeElem(t[0]), EncodeTuple(t[1..]), EncodeTuple(u[1..]));
    }
  }

  lemma {:induction false} TupleLtTotal(t: Tuple, u: Tuple)
    ensures t == u || TupleLt(t, u) || TupleLt(u, t)
  {
    if t != [] && u != [] {
      LtTotal(t[0], u[0]);
      TupleLtTotal(t[1..], u[1..]);
      assert t == [t[0]] + t[1..] && u == [u[0]] + u[1..];
    }
  }

  /** The order embedding: encoded tuples compare as bytes exactly as the tuples compare. */
  lemma OrderEmbedding(t: Tuple, u: Tuple)
    ensures Lt(EncodeTuple(t), EncodeTuple(u)) <==> TupleLt(t, u)
  {
    hide EncodeTuple;
    TupleLtTotal(t, u);
    if TupleLt(t, u) {
      TupleLtEncodesBelow(t, u);
    } else {
      if TupleLt(u, t) {
        TupleLtEncodesBelow(u, t);
        LtAsymmetric(EncodeTuple(u), EncodeTuple(t));
      }
      LtIrreflexive(EncodeTuple(t));
    }
  }

  lemma EmptyFirst(b: Bytes)
    ensures b != [] ==> Lt([], b)
  {
  }

  /** A tuple's encoding starts with the encoding of each of its prefixes, so a search for the
      first elements of a key lands in front of every key that starts with them. */
  lemma PrefixEncodesAsPrefix(t: Tuple, n: nat)
    requires n <= |t|
    ensures EncodeTuple(t[..n]) <= EncodeTuple(t)
    ensures Le(EncodeTuple(t[..n]), EncodeTuple(t))
  {
    hide EncodeTuple, Lt;
    assert t == t[..n] + t[n..];
    EncodeAppend(t[..n], t[n..]);
    var p, rest := EncodeTuple(t[..n]), EncodeTuple(t[n..]);
    assert p + [] == p;
    EmptyFirst(rest);
    LtCommonPrefix(p, [], rest);
  }
}
