/** What a freed CudaDoubleDataBuffer still does. Most operations fail fast
    through `ensureNotFreed()`; two do not, because `getDouble` has its check
    commented out and the double overload of `assign` never makes one. */
module Lifecycle {

  import opened JavaInts
  import opened Outcomes
  import opened DoubleBuffer
  import opened BulkAccess
  import opened Serialization

  /** On a freed buffer every checking operation throws UseAfterFree and
      leaves the buffer as it was, while `getDouble` and `assign(…, double[], …)`
      behave exactly as on the live buffer. */
  lemma FreedBufferFailsFast<E, F>(b: Buffer<E>, xs: seq<E>, i: Int32, x: E, host: seq<E>,
                                  offset: Int32, inc: Int32, length: Int32, toFloat: E -> F,
                                  indices: seq<Int32>, fs: seq<F>, contiguous: bool)
    requires b.freed
    ensures SetData(b, xs) == Transition(b, Fail(UseAfterFree))
    ensures Put(b, i, x) == Err(UseAfterFree)
    ensures Dup(b) == Err(UseAfterFree)
    ensures GetDoublesAt(b, host, offset, inc, length) == Err(UseAfterFree)
    ensures GetFloatsAt(b, host, offset, inc, length, toFloat) == Err(UseAfterFree)
    ensures GetFloatsAtUnitStride(b, host, offset, length, toFloat) == Err(UseAfterFree)
    ensures AssignFloats(b, indices, fs, contiguous, inc) == Err(UseAfterFree)
    ensures |xs| <= MaxInt ==> ReadObject(b, WriteObject(Some(xs))) == Transition(b, Fail(UseAfterFree))
    ensures GetDouble(b, i) == GetDouble(b.(freed := false), i)
    ensures AssignDoubles(b, indices, xs, contiguous, inc) == AssignDoubles(b.(freed := false), indices, xs, contiguous, inc)
  {
  }
}
