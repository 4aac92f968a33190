/** The serialised form CudaDoubleDataBuffer writes in `writeObject` and
    reads back in `readObject`: an `int` count, then that many elements.

    The stream is modelled as a sequence of tokens, one per `writeInt` or
    `writeDouble`; the bytes of each token and Java's own object framing
    (`defaultWriteObject`, `defaultReadObject`) are not part of this model. */
module Serialization {

  import opened JavaInts
  import opened Outcomes
  import opened DoubleBuffer

  /** One value on the stream: an `int` or an element. */
  datatype Token<E> = IntToken(n: Int32) | ElemToken(elem: E)

  /** The element tokens for `xs`, in order. */
  function Elems<E>(xs: seq<E>): seq<Token<E>> {
    seq(|xs|, k requires 0 <= k < |xs| => ElemToken(xs[k]))
  }

  /** `writeObject`. `hostArray` is `None` when the base class's host pointer
      is null, and otherwise the array `asDouble()` returns. */
  function WriteObject<E>(hostArray: Option<seq<E>>): (ts: seq<Token<E>>)
    requires hostArray.Some? ==> |hostArray.value| <= MaxInt
    ensures hostArray.None? ==> ts == [IntToken(0)]
    ensures hostArray.Some? ==> |ts| == 1 + |hostArray.value| && ts[0] == IntToken(|hostArray.value|)
    ensures hostArray.Some? ==> forall k :: 0 <= k < |hostArray.value| ==> ts[1 + k] == ElemToken(hostArray.value[k])
  {
    match hostArray
    case None => [IntToken(0)]
    case Some(xs) => [IntToken(|xs|)] + Elems(xs)
  }

  /** `stream.readInt()`: the count and the rest of the stream. */
  function ReadInt<E>(ts: seq<Token<E>>): (r: Result<(Int32, seq<Token<E>>)>)
    ensures r.Ok? <==> |ts| > 0 && ts[0].IntToken?
    ensures r.Ok? ==> ts == [IntToken(r.value.0)] + r.value.1
  {
    if |ts| == 0 then Err(EndOfStream)
    else if !ts[0].IntToken? then Err(StreamCorrupted)
    else Ok((ts[0].n, ts[1..]))
  }

  /** The loop `for (i = 0; i < n; i++) arr[i] = stream.readDouble()`: the
      `n` elements and the rest of the stream. It succeeds exactly when the
      stream starts with `n` element tokens, and then consumes just those. */
  function ReadElems<E>(ts: seq<Token<E>>, n: nat): (r: Result<(seq<E>, seq<Token<E>>)>)
    ensures r.Ok? <==> n <= |ts| && forall k :: 0 <= k < n ==> ts[k].ElemToken?
    ensures r.Err? ==> r.error in {EndOfStream, StreamCorrupted}
    ensures r.Ok? ==> |r.value.0| == n && ts == Elems(r.value.0) + r.value.1
    decreases n
  {
    if n == 0 then
      Ok(([], ts))
    else if |ts| == 0 then
      Err(EndOfStream)
    else if !ts[0].ElemToken? then
      Err(StreamCorrupted)
    else
      var tail :- ReadElems(ts[1..], n - 1);
      assert Elems([ts[0].elem] + tail.0) == [ts[0]] + Elems(tail.0);
      Ok(([ts[0].elem] + tail.0, tail.1))
  }

  /** The decoding half of `readObject`: the count, the allocation (which
      throws for a negative count), then the elements. */
  function Decode<E>(ts: seq<Token<E>>): (r: Result<(seq<E>, seq<Token<E>>)>)
    ensures r.Ok? ==> |r.value.0| <= MaxInt
    ensures r.Ok? ==> ts == WriteObject(Some(r.value.0)) + r.value.1
    ensures ReadInt(ts).Err? ==> r == Err(ReadInt(ts).error)
    ensures ReadInt(ts).Ok? && ReadInt(ts).value.0 < 0 ==> r == Err(NegativeArraySize)
    ensures r.Err? ==> r.error in {EndOfStream, StreamCorrupted, NegativeArraySize}
  {
    var (n, rest) :- ReadInt(ts);
    if n < 0 then Err(NegativeArraySize) else ReadElems(rest, n)
  }

  /** `readObject` on the buffer `defaultReadObject` produced: decode, then
      `setData`. A decoding failure leaves the buffer as it was. */
  function ReadObject<E>(b: Buffer<E>, ts: seq<Token<E>>): (r: Transition<E>)
    ensures Decode(ts).Err? ==> r == Transition(b, Fail(Decode(ts).error))
    ensures Decode(ts).Ok? && b.freed ==> r == Transition(b, Fail(UseAfterFree))
    ensures Decode(ts).Ok? && !b.freed ==> r.after == b.(data := Some(Decode(ts).value.0))
    ensures Decode(ts).Ok? && !b.freed ==> (r.outcome == Pass <==> |Decode(ts).value.0| == b.length)
    ensures Decode(ts).Ok? && !b.freed && |Decode(ts).value.0| != b.length ==> r.outcome == Fail(IllegalArgument)
  {
    match Decode(ts)
    case Err(e) => Transition(b, Fail(e))
    case Ok((xs, _)) => SetData(b, xs)
  }

  // ---------------------------------------------------------------------
  // Round trips

  /** Reading `|xs|` elements back from their tokens returns `xs` and leaves
      whatever followed. */
  lemma {:induction false} ReadElemsOfElems<E>(xs: seq<E>, rest: seq<Token<E>>)
    ensures ReadElems(Elems(xs) + rest, |xs|) == Ok((xs, rest))
  {
    var ts := Elems(xs) + rest;
    if |xs| == 0 {
      assert ts == rest;
    } else {
      assert ts[0] == ElemToken(xs[0]);
      assert ts[1..] == Elems(xs[1..]) + rest;
      ReadElemsOfElems(xs[1..], rest);
      assert [xs[0]] + xs[1..] == xs;
    }
  }

  /** Decoding what `writeObject` wrote returns the host array exactly, and
      an empty array when the host pointer was null; a trailing stream is
      left untouched. */
  lemma DecodeAfterWrite<E>(hostArray: Option<seq<E>>, rest: seq<Token<E>>)
    requires hostArray.Some? ==> |hostArray.value| <= MaxInt
    ensures hostArray.Some? ==> Decode(WriteObject(hostArray) + rest) == Ok((hostArray.value, rest))
    ensures hostArray.None? ==> Decode(WriteObject(hostArray) + rest) == Ok(([], rest))
  {
    match hostArray
    case None =>
      assert (WriteObject(hostArray) + rest)[1..] == rest;
    case Some(xs) =>
      assert (WriteObject(hostArray) + rest)[1..] == Elems(xs) + rest;
      ReadElemsOfElems(xs, rest);
  }

  /** The encoding is canonical: a stream decodes to `xs` exactly when it
      starts with what `writeObject` writes for `xs`. */
  lemma DecodeIffWritten<E>(ts: seq<Token<E>>, xs: seq<E>, rest: seq<Token<E>>)
    requires |xs| <= MaxInt
    ensures Decode(ts) == Ok((xs, rest)) <==> ts == WriteObject(Some(xs)) + rest
  {
    if ts == WriteObject(Some(xs)) + rest {
      DecodeAfterWrite(Some(xs), rest);
    }
  }

  /** `readObject` after `writeObject`: the live buffer holds the written
      array afterwards, and the call succeeds exactly when the array's
      length equals the buffer's. */
  lemma ReadAfterWrite<E>(b: Buffer<E>, xs: seq<E>)
    requires !b.freed && |xs| <= MaxInt
    ensures ReadObject(b, WriteObject(Some(xs))).after.data == Some(xs)
    ensures ReadObject(b, WriteObject(Some(xs))).outcome == Pass <==> |xs| == b.length
  {
    DecodeAfterWrite(Some(xs), []);
    assert WriteObject(Some(xs)) + [] == WriteObject(Some(xs));
  }

  /** Reading a serialised array into a fresh buffer of its length gives the
      same buffer as constructing from the array. */
  lemma ReadIntoFreshIsFromArray<E>(xs: seq<E>)
    requires |xs| <= MaxInt
    ensures ReadObject(Fresh(|xs|), WriteObject(Some(xs))) == FromArray(xs)
  {
    ReadAfterWrite(Fresh(|xs|), xs);
  }

  /** A buffer serialised without a host pointer reads back as an empty
      array, which fails the length check unless the buffer is empty. */
  lemma NullHostPointerReadsEmpty<E>(b: Buffer<E>)
    requires !b.freed
    ensures ReadObject(b, WriteObject(None)).after.data == Some([])
    ensures ReadObject(b, WriteObject(None)).outcome == (if b.length == 0 then Pass else Fail(IllegalArgument))
  {
  }
}
