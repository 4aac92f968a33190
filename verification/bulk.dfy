/** The bulk operations of CudaDoubleDataBuffer: the two indexed `assign`
    overloads and the strided reads `getDoublesAt` / `getFloatsAt`.

    What the base class does with the host and device storage is not part of
    this model. `assign` hands its work to the base class's `set`, so it is
    modelled up to the arguments of that call. The reads go through
    `getBuffer(offset)`, modelled by the stated assumption `HostView`: the
    base class's host storage `host` from element `offset` on. That storage
    is a parameter, not the `data` field `getDouble` reads. */
module BulkAccess {

  import opened JavaInts
  import opened Outcomes
  import opened DoubleBuffer

  /** The call `set(offset, n, Pointer.to(source), inc)` that a successful
      `assign` makes. */
  datatype SetCall<V> = SetCall(offset: Int32, count: nat, source: seq<V>, inc: Int32)

  /** The checks both `assign` overloads make, in their order, and the call
      they end in. Only `indices[0]` is read from `indices`. */
  function AssignChecked<E, V>(b: Buffer<E>, indices: seq<Int32>, values: seq<V>, contiguous: bool, inc: Int32)
    : Result<SetCall<V>>
  {
    if |indices| != |values| then Err(IllegalArgument)
    else if |indices| > b.length then Err(IllegalArgument)
    else if !contiguous then Err(Unsupported)
    else if |indices| == 0 then Err(IndexOutOfBounds)
    else Ok(SetCall(indices[0], |values|, values, inc))
  }

  /** `assign(int[] indices, double[] data, boolean contiguous, int inc)`.
      It makes no freed check of its own. */
  function AssignDoubles<E>(b: Buffer<E>, indices: seq<Int32>, values: seq<E>, contiguous: bool, inc: Int32)
    : (r: Result<SetCall<E>>)
    ensures |indices| != |values| ==> r == Err(IllegalArgument)
    ensures |indices| == |values| > b.length ==> r == Err(IllegalArgument)
    ensures |indices| == |values| <= b.length && !contiguous ==> r == Err(Unsupported)
    ensures |indices| == |values| == 0 && contiguous ==> r == Err(IndexOutOfBounds)
    ensures r.Ok? <==> contiguous && 0 < |indices| == |values| <= b.length
    ensures r.Ok? ==> r.value.offset == indices[0] && r.value.inc == inc
    ensures r.Ok? ==> r.value.count == |values| && r.value.source == values
  {
    AssignChecked(b, indices, values, contiguous, inc)
  }

  /** `assign(int[] indices, float[] data, boolean contiguous, int inc)`:
      the same checks, preceded by the freed check. */
  function AssignFloats<E, F>(b: Buffer<E>, indices: seq<Int32>, values: seq<F>, contiguous: bool, inc: Int32)
    : (r: Result<SetCall<F>>)
    ensures b.freed ==> r == Err(UseAfterFree)
    ensures !b.freed && |indices| != |values| ==> r == Err(IllegalArgument)
    ensures !b.freed && |indices| == |values| > b.length ==> r == Err(IllegalArgument)
    ensures !b.freed && |indices| == |values| <= b.length && !contiguous ==> r == Err(Unsupported)
    ensures !b.freed && |indices| == |values| == 0 && contiguous ==> r == Err(IndexOutOfBounds)
    ensures r.Ok? <==> !b.freed && contiguous && 0 < |indices| == |values| <= b.length
    ensures r.Ok? ==> r == Ok(SetCall(indices[0], |values|, values, inc))
  {
    if b.freed then Err(UseAfterFree) else AssignChecked(b, indices, values, contiguous, inc)
  }

  /** Of `indices`, `assign` uses only its length and its first entry. */
  lemma AssignUsesOnlyFirstIndex<E>(b: Buffer<E>, indices: seq<Int32>, indices': seq<Int32>,
                                    values: seq<E>, contiguous: bool, inc: Int32)
    requires |indices| == |indices'|
    requires |indices| > 0 ==> indices[0] == indices'[0]
    ensures AssignDoubles(b, indices, values, contiguous, inc) == AssignDoubles(b, indices', values, contiguous, inc)
  {
  }

  /** The two overloads disagree only on a freed buffer: there the double
      overload still reaches `set`, with the same arguments as on a live
      buffer. What `set` itself does on a freed buffer is not modelled. */
  lemma AssignOverloadsAgreeWhenLive<E>(b: Buffer<E>, indices: seq<Int32>, values: seq<E>, contiguous: bool, inc: Int32)
    ensures !b.freed ==> AssignFloats(b, indices, values, contiguous, inc) == AssignDoubles(b, indices, values, contiguous, inc)
    ensures b.freed && contiguous && 0 < |indices| == |values| <= b.length ==>
              AssignDoubles(b, indices, values, contiguous, inc) == Ok(SetCall(indices[0], |values|, values, inc))
  {
  }

  // ---------------------------------------------------------------------
  // Strided reads

  /** The array length `getDoublesAt` allocates: when `offset + length`
      exceeds `getLength()`, the source subtracts `offset` from `length`
      (it does not clamp to the space left). Both steps are Java `int`
      arithmetic. */
  function ReadLength(capacity: Length, offset: Int32, length: Int32): (n: Int32)
    ensures MinInt <= offset + length <= MaxInt && offset + length <= capacity ==> n == length
    ensures (MinInt <= offset + length <= MaxInt && offset + length > capacity
             && MinInt <= length - offset <= MaxInt) ==> n == length - offset
  {
    if Wrap(offset + length) > capacity then Wrap(length - offset) else length
  }

  /** Assumed behaviour of the base class's `getBuffer(offset).asDoubleBuffer()`:
      the host storage from element `offset` on. An offset outside the
      storage is assumed to throw. */
  function HostView<E>(host: seq<E>, offset: Int32): Result<seq<E>> {
    if 0 <= offset <= |host| then Ok(host[offset..]) else Err(IndexOutOfBounds)
  }

  /** The view position read for result element `k`: `k * inc` in `int` arithmetic. */
  function Slot(inc: Int32, k: int): Int32 {
    Wrap(k * inc)
  }

  /** The read loop `for (i = 0; i < n; i++) ret[i] = buf2.get(i * inc)`;
      `java.nio.DoubleBuffer.get` throws for a position outside the view. */
  function Gather<E>(view: seq<E>, inc: Int32, n: nat): (r: Result<seq<E>>)
    ensures r.Ok? <==> forall k :: 0 <= k < n ==> 0 <= Slot(inc, k) < |view|
    ensures r.Err? ==> r.error == IndexOutOfBounds
    ensures r.Ok? ==> |r.value| == n
    ensures r.Ok? ==> forall k :: 0 <= k < n ==> r.value[k] == view[Slot(inc, k)]
    decreases n
  {
    if n == 0 then
      Ok([])
    else
      var prefix :- Gather(view, inc, n - 1);
      var j := Slot(inc, n - 1);
      if 0 <= j < |view| then Ok(prefix + [view[j]]) else Err(IndexOutOfBounds)
  }

  /** `getDoublesAt(offset, inc, length)` over the host storage `host`:
      the freed check, the length adjustment, the allocation (which throws
      for a negative length), the view, then the strided loop. Element `k`
      of the result is host element `offset + k * inc`. */
  function GetDoublesAt<E>(b: Buffer<E>, host: seq<E>, offset: Int32, inc: Int32, length: Int32)
    : (r: Result<seq<E>>)
    ensures b.freed ==> r == Err(UseAfterFree)
    ensures !b.freed && ReadLength(b.length, offset, length) < 0 ==> r == Err(NegativeArraySize)
    ensures r.Ok? <==> !b.freed && 0 <= ReadLength(b.length, offset, length) && 0 <= offset <= |host|
                       && forall k :: 0 <= k < ReadLength(b.length, offset, length) ==>
                            0 <= Slot(inc, k) < |host| - offset
    ensures !b.freed && 0 <= ReadLength(b.length, offset, length) && r.Err? ==> r.error == IndexOutOfBounds
    ensures r.Ok? ==> |r.value| == ReadLength(b.length, offset, length)
    ensures r.Ok? ==> forall k :: 0 <= k < |r.value| ==> r.value[k] == host[offset + Slot(inc, k)]
  {
    if b.freed then
      Err(UseAfterFree)
    else
      var n := ReadLength(b.length, offset, length);
      if n < 0 then
        Err(NegativeArraySize)
      else
        var view :- HostView(host, offset);
        Gather(view, inc, n)
  }

  /** `getDoublesAt(offset, length)`: the strided read with step 1, so a
      successful read is one contiguous run of the host storage. */
  function GetDoublesAtUnitStride<E>(b: Buffer<E>, host: seq<E>, offset: Int32, length: Int32)
    : (r: Result<seq<E>>)
    ensures r == GetDoublesAt(b, host, offset, 1, length)
    ensures r.Ok? ==> 0 <= offset && offset + |r.value| <= |host|
    ensures r.Ok? ==> r.value == host[offset .. offset + |r.value|]
  {
    GetDoublesAt(b, host, offset, 1, length)
  }

  /** `getFloatsAt(offset, inc, length)`: the freed check, then the
      conversion of `getDoublesAt(offset, 1, length)`; `inc` is not used. */
  function GetFloatsAt<E, F>(b: Buffer<E>, host: seq<E>, offset: Int32, inc: Int32, length: Int32, toFloat: E -> F)
    : (r: Result<seq<F>>)
    ensures r.Ok? <==> GetDoublesAtUnitStride(b, host, offset, length).Ok?
    ensures r.Err? ==> r.error == GetDoublesAtUnitStride(b, host, offset, length).error
    ensures r.Ok? ==> |r.value| == |GetDoublesAtUnitStride(b, host, offset, length).value|
    ensures r.Ok? ==> forall k :: 0 <= k < |r.value| ==> r.value[k] == toFloat(host[offset + k])
  {
    if b.freed then
      Err(UseAfterFree)
    else
      var xs :- GetDoublesAtUnitStride(b, host, offset, length);
      Ok(Convert(xs, toFloat))
  }

  /** `getFloatsAt(offset, length)`: the conversion of `getDoublesAt(offset, length)`. */
  function GetFloatsAtUnitStride<E, F>(b: Buffer<E>, host: seq<E>, offset: Int32, length: Int32, toFloat: E -> F)
    : (r: Result<seq<F>>)
    ensures r.Ok? <==> GetDoublesAtUnitStride(b, host, offset, length).Ok?
    ensures r.Err? ==> r.error == GetDoublesAtUnitStride(b, host, offset, length).error
    ensures r.Ok? ==> |r.value| == ReadLength(b.length, offset, length)
    ensures r.Ok? ==> forall k :: 0 <= k < |r.value| ==> r.value[k] == toFloat(host[offset + k])
  {
    var xs :- GetDoublesAtUnitStride(b, host, offset, length);
    Ok(Convert(xs, toFloat))
  }

  /** The float reads agree: the three-argument form ignores its `inc`, and
      its own freed check adds nothing to the one inside `getDoublesAt`. */
  lemma FloatReadsAgree<E, F>(b: Buffer<E>, host: seq<E>, offset: Int32, inc: Int32, inc': Int32,
                               length: Int32, toFloat: E -> F)
    ensures GetFloatsAt(b, host, offset, inc, length, toFloat) == GetFloatsAt(b, host, offset, inc', length, toFloat)
    ensures GetFloatsAt(b, host, offset, inc, length, toFloat) == GetFloatsAtUnitStride(b, host, offset, length, toFloat)
  {
  }

  /** A read that fits in the buffer, and in a host storage at least that
      long, returns exactly the requested run. */
  lemma InRangeReadIsSlice<E>(b: Buffer<E>, host: seq<E>, offset: Int32, length: Int32)
    requires !b.freed && 0 <= offset && 0 <= length && offset + length <= b.length <= |host|
    ensures GetDoublesAtUnitStride(b, host, offset, length) == Ok(host[offset .. offset + length])
  {
  }

  /** The length adjustment does not clamp. Reading 4 elements at offset 3
      of a 5-element buffer yields 1 element where 2 would fit, and reading
      past the end from offset 0 keeps the full length and so throws. */
  lemma OverlongReadsAreNotClamped<E>(b: Buffer<E>, host: seq<E>)
    requires !b.freed && b.length == 5 && |host| == 5
    ensures GetDoublesAtUnitStride(b, host, 3, 4) == Ok([host[3]])
    ensures GetDoublesAtUnitStride(b, host, 0, 6) == Err(IndexOutOfBounds)
  {
    assert ReadLength(5, 3, 4) == 1;
    assert Slot(1, 0) == 0;
    assert host[3 .. 4] == [host[3]];
    assert ReadLength(5, 0, 6) == 6;
    assert Slot(1, 5) == 5;
  }

  /** When `offset` exceeds `length` and the read overruns, the adjusted
      length is negative and the allocation throws. */
  lemma OverrunWithLargeOffsetIsNegativeArraySize<E>(b: Buffer<E>, host: seq<E>, offset: Int32, length: Int32)
    requires !b.freed && 0 <= length < offset && offset + length <= MaxInt && offset + length > b.length
    ensures GetDoublesAt(b, host, offset, 1, length) == Err(NegativeArraySize)
  {
  }
}
