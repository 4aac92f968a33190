/** The element-level core of CudaDoubleDataBuffer: construction, the host
    array `data`, `setData`, `put`, `getDouble` and `dup`.

    The buffer is an immutable value; an operation that mutates the Java
    object returns the buffer as it is afterwards. Elements have the abstract
    type `E` (Java `double`), so no floating-point semantics enter the model.

    Assumptions about the base class, whose code is not part of this model:
    `getLength()` returns the `length` field, and `ensureNotFreed()` throws
    exactly when the buffer has been freed. */
module DoubleBuffer {

  import opened JavaInts
  import opened Outcomes

  /** An element count: a non-negative Java `int`. */
  type Length = n: int | 0 <= n <= 0x7fff_ffff

  /** One buffer. `data` is the host array field, `None` while it is null. */
  datatype Buffer<E> = Buffer(length: Length, freed: bool, data: Option<seq<E>>)

  /** A call that may change the buffer: the state afterwards, and whether
      the call returned or threw. A throwing call can still have changed it. */
  datatype Transition<E> = Transition(after: Buffer<E>, outcome: Outcome)

  /** The state `new CudaDoubleDataBuffer(length)` leaves: live, of the
      requested length, host array still null, so `getDouble` throws
      NullPointer at every index until `setData` installs an array. */
  function Fresh<E>(n: Length): (r: Buffer<E>)
    ensures r.length == n && !r.freed
    ensures forall i :: MinInt <= i <= MaxInt ==> GetDouble(r, i) == Err(NullPointer)
  {
    Buffer(n, false, None)
  }

  /** Elementwise numeric cast (`ArrayUtil.toDoubles`, `toFloats`). */
  function Convert<V, W>(vs: seq<V>, cast: V -> W): (ws: seq<W>)
    ensures |ws| == |vs|
    ensures forall k :: 0 <= k < |vs| ==> ws[k] == cast(vs[k])
  {
    seq(|vs|, k requires 0 <= k < |vs| => cast(vs[k]))
  }

  /** `setData(double[])`: after the freed check the field is replaced first,
      and only then is the length compared, so a mismatch throws with the new
      array already installed. */
  function SetData<E>(b: Buffer<E>, xs: seq<E>): (r: Transition<E>)
    ensures b.freed ==> r == Transition(b, Fail(UseAfterFree))
    ensures !b.freed ==> r.after == b.(data := Some(xs))
    ensures !b.freed ==> (r.outcome == Pass <==> |xs| == b.length)
    ensures !b.freed && |xs| != b.length ==> r.outcome == Fail(IllegalArgument)
  {
    if b.freed then
      Transition(b, Fail(UseAfterFree))
    else
      var installed := b.(data := Some(xs));
      if |xs| != b.length then
        Transition(installed, Fail(IllegalArgument))
      else
        Transition(installed, Pass)
  }

  /** `setData(int[])` and `setData(float[])`: widen every element, then
      `setData(double[])`. */
  function SetDataConverted<V, E>(b: Buffer<E>, vs: seq<V>, toDouble: V -> E): (r: Transition<E>)
    ensures b.freed ==> r == Transition(b, Fail(UseAfterFree))
    ensures !b.freed ==> (r.outcome == Pass <==> |vs| == b.length)
    ensures !b.freed && |vs| != b.length ==> r.outcome == Fail(IllegalArgument)
    ensures !b.freed ==> r.after.length == b.length && !r.after.freed
    ensures !b.freed ==> r.after.data.Some? && |r.after.data.value| == |vs|
    ensures !b.freed ==> forall k :: 0 <= k < |vs| ==> r.after.data.value[k] == toDouble(vs[k])
  {
    SetData(b, Convert(vs, toDouble))
  }

  /** `new CudaDoubleDataBuffer(double[] data)`: `this(data.length)`, then
      `setData(data)`, whose length check therefore always passes. */
  function FromArray<E>(xs: seq<E>): (r: Transition<E>)
    requires |xs| <= MaxInt
    ensures r.outcome == Pass
    ensures r.after.length == |xs| && !r.after.freed && r.after.data == Some(xs)
  {
    SetData(Fresh(|xs|), xs)
  }

  /** `getDouble(i)`: reads the host array directly. The freed check is
      commented out in the source, so a freed buffer still reads; the bound
      is the array's own length, not `length`. */
  function GetDouble<E>(b: Buffer<E>, i: Int32): (r: Result<E>)
    ensures b.data.None? ==> r == Err(NullPointer)
    ensures r.Ok? <==> b.data.Some? && 0 <= i < |b.data.value|
    ensures b.data.Some? && 0 <= i < |b.data.value| ==> r.value == b.data.value[i]
    ensures b.data.Some? && !(0 <= i < |b.data.value|) ==> r == Err(IndexOutOfBounds)
  {
    match b.data
    case None => Err(NullPointer)
    case Some(xs) => if 0 <= i < |xs| then Ok(xs[i]) else Err(IndexOutOfBounds)
  }

  /** `getFloat(i)`, `getInt(i)`, `getNumber(i)`: `getDouble(i)` followed by
      a numeric cast. */
  function GetConverted<E, W>(b: Buffer<E>, i: Int32, cast: E -> W): (r: Result<W>)
    ensures r.Ok? <==> GetDouble(b, i).Ok?
    ensures r.Ok? ==> r.value == cast(b.data.value[i])
    ensures r.Err? ==> r.error == GetDouble(b, i).error
  {
    var x :- GetDouble(b, i);
    Ok(cast(x))
  }

  /** `put(i, double)`: the freed check, then `data[i] = element`. */
  function Put<E>(b: Buffer<E>, i: Int32, x: E): (r: Result<Buffer<E>>)
    ensures b.freed ==> r == Err(UseAfterFree)
    ensures !b.freed && b.data.None? ==> r == Err(NullPointer)
    ensures !b.freed && b.data.Some? && !(0 <= i < |b.data.value|) ==> r == Err(IndexOutOfBounds)
    ensures r.Ok? <==> !b.freed && b.data.Some? && 0 <= i < |b.data.value|
    ensures r.Ok? ==> r.value.length == b.length && !r.value.freed
    ensures r.Ok? ==> r.value.data.Some? && |r.value.data.value| == |b.data.value|
    ensures r.Ok? ==> r.value.data.value[i] == x
    ensures r.Ok? ==> forall j :: 0 <= j < |b.data.value| && j != i ==>
                        r.value.data.value[j] == b.data.value[j]
  {
    if b.freed then
      Err(UseAfterFree)
    else
      match b.data
      case None => Err(NullPointer)
      case Some(xs) =>
        if 0 <= i < |xs| then Ok(b.(data := Some(xs[i := x]))) else Err(IndexOutOfBounds)
  }

  /** `put(i, float)` and `put(i, int)`: cast, then `put(i, double)`. */
  function PutConverted<V, E>(b: Buffer<E>, i: Int32, v: V, toDouble: V -> E): (r: Result<Buffer<E>>)
    ensures b.freed ==> r == Err(UseAfterFree)
    ensures !b.freed && b.data.None? ==> r == Err(NullPointer)
    ensures !b.freed && b.data.Some? && !(0 <= i < |b.data.value|) ==> r == Err(IndexOutOfBounds)
    ensures r.Ok? <==> !b.freed && b.data.Some? && 0 <= i < |b.data.value|
    ensures r.Ok? ==> r.value.length == b.length && !r.value.freed
    ensures r.Ok? ==> GetDouble(r.value, i) == Ok(toDouble(v))
    ensures r.Ok? ==> forall j: Int32 :: j != i ==> GetDouble(r.value, j) == GetDouble(b, j)
  {
    Put(b, i, toDouble(v))
  }

  /** `dup()`: the freed check, then a new buffer of the same length. The
      base class's `copyTo` then fills it; that copy is not part of this
      model, so the result is the buffer as freshly constructed. */
  function Dup<E>(b: Buffer<E>): (r: Result<Buffer<E>>)
    ensures r.Ok? <==> !b.freed
    ensures r.Err? ==> r.error == UseAfterFree
    ensures r.Ok? ==> r.value.length == b.length && !r.value.freed
  {
    if b.freed then Err(UseAfterFree) else Ok(Fresh(b.length))
  }

  // ---------------------------------------------------------------------
  // Laws relating the operations

  /** After a successful `setData(xs)`, `getDouble` reads back exactly `xs`:
      every index below `length` yields its element, every other index throws. */
  lemma SetDataThenGet<E>(b: Buffer<E>, xs: seq<E>, i: Int32)
    requires SetData(b, xs).outcome == Pass
    ensures 0 <= i < b.length ==> GetDouble(SetData(b, xs).after, i) == Ok(xs[i])
    ensures !(0 <= i < b.length) ==> GetDouble(SetData(b, xs).after, i) == Err(IndexOutOfBounds)
  {
  }

  /** A buffer built from an array reads back that array at every index. */
  lemma FromArrayReadsBack<E>(xs: seq<E>)
    requires |xs| <= MaxInt
    ensures forall i: Int32 :: 0 <= i < |xs| ==> GetDouble(FromArray(xs).after, i) == Ok(xs[i])
  {
  }

  /** A failed `setData` is not state-preserving: on a live buffer the
      length mismatch is reported after the host array has been replaced. */
  lemma SetDataMismatchStillInstalls<E>(b: Buffer<E>, xs: seq<E>, i: Int32)
    requires !b.freed && |xs| != b.length
    ensures SetData(b, xs).outcome == Fail(IllegalArgument)
    ensures GetDouble(SetData(b, xs).after, i) == (if 0 <= i < |xs| then Ok(xs[i]) else Err(IndexOutOfBounds))
  {
  }

  /** `put(i, x)` then `getDouble(j)`: `x` at `i`, the old element elsewhere. */
  lemma PutThenGet<E>(b: Buffer<E>, i: Int32, x: E, j: Int32)
    requires Put(b, i, x).Ok?
    ensures GetDouble(Put(b, i, x).value, i) == Ok(x)
    ensures j != i ==> GetDouble(Put(b, i, x).value, j) == GetDouble(b, j)
  {
  }

  /** `dup()` of a live buffer accepts exactly the arrays the original accepts. */
  lemma DupAcceptsSameArrays<E>(b: Buffer<E>, xs: seq<E>)
    requires !b.freed
    ensures SetData(Dup(b).value, xs).outcome == SetData(b, xs).outcome
  {
  }
}
