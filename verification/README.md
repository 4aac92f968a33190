# CudaDoubleDataBuffer, modelled in Dafny

This project models the logic of `CudaDoubleDataBuffer`, the 64-bit-float
variant of nd4j's CUDA data buffer. The model covers a fixed-length buffer
with a `freed` flag and a host array `data`, and these operations:

- the array constructor;
- `setData`, `put` and `getDouble`;
- the two indexed `assign` overloads;
- the strided reads `getDoublesAt` and `getFloatsAt`;
- `dup`;
- the `writeObject`/`readObject` serialised form.

The CUDA plumbing underneath is not modelled.

The buffer is modelled as the immutable record `Buffer(length, freed, data)` over an
abstract element type `E`, which stands for Java `double`. Using `E` keeps
floating-point semantics out of the model. `data` is `Option<seq<E>>`,
because the Java field can be null: the `int`-length constructor leaves it
null (array arguments that are themselves null are not modelled). The
record holds its array by value, whereas the Java object shares it with the
caller (see "## Left out"). An
operation that changes the Java object returns the new record. A `void`
method that may throw after changing state returns a `Transition`, which
pairs the state afterwards with `Pass` or `Fail(error)`. Every exception is
an `Error` tag: IllegalArgument, Unsupported, UseAfterFree,
NegativeArraySize, IndexOutOfBounds, NullPointer, EndOfStream or
StreamCorrupted. Java `int` parameters have type `Int32`. Where the source's
`int` arithmetic can overflow (`offset + length`, `length - offset`,
`i * inc`), the wrap-around is written out with `JavaInts.Wrap`.

Modules, one per concern:

- `JavaInts` (`java_ints.dfy`): the `int` range and its wrap-around.
- `Outcomes` (`errors.dfy`): the error tags, and the `Option`, `Result` and `Outcome` types.
- `DoubleBuffer` (`buffer.dfy`): the record, construction, `setData`, `put`, `getDouble` and `dup`.
- `BulkAccess` (`bulk.dfy`): `assign`, `getDoublesAt` and `getFloatsAt`.
- `Serialization` (`serialization.dfy`): `writeObject`/`readObject` over a token stream.
- `Lifecycle` (`lifecycle.dfy`): what a freed buffer still does.

## Assumptions about the base class

`BaseCudaDataBuffer` is not part of this model. Its members enter the model
only through these stated assumptions. None of them is proven:

- `getLength()` returns the `length` field.
- The base constructor `super(length, Sizeof.DOUBLE)` records `length` and
  leaves the buffer not freed. This is `DoubleBuffer.Fresh`.
- `ensureNotFreed()` throws exactly when `freed` is set. That exception is
  the UseAfterFree tag.
- `getBuffer(offset).asDoubleBuffer()` is the base class's host storage from
  element `offset` on. An offset outside that storage throws. This is
  `BulkAccess.HostView`. The host storage is a parameter `host` of the read
  functions. It is not the `data` field that `put` and `getDouble` use, and
  the model does not relate the two.
- `getHostPointer()` and `asDouble()` together are the `hostArray`
  parameter of `Serialization.WriteObject`. It is `None` when the pointer
  is null, and otherwise the array `asDouble()` returns.
- `set(offset, n, pointer, inc)` is not interpreted. A successful `assign`
  yields the `SetCall` record of the arguments it would pass to `set`.
- `copyTo` is not interpreted. `dup` yields the new buffer as constructed,
  before the copy.

## Behaviour as written

The model follows the code where it departs from what a clean design of this
buffer would promise:

- `setData` installs the new array before it checks the length, so a
  rejected call still changes the buffer.
- `getDouble` makes no freed check, because that check is commented out.
  It bounds the index by the host array's own length, not by `length`.
- The double overload of `assign` makes no freed check; the float overload does.
- `getDoublesAt` does not clamp an overlong read. It subtracts `offset` from
  `length`, which can under-read, overrun, or give a negative size.
- `getFloatsAt(offset, inc, length)` ignores `inc`.
- A buffer with no host pointer serialises as the count 0. Reading that
  back into a non-empty buffer fails the length check.

## Model

| member | source | states |
|---|---|---|
| JavaInts.Wrap | nd4j-jcublas-parent/nd4j-jcublas-common/src/main/java/org/nd4j/linalg/jcublas/buffer/CudaDoubleDataBuffer.java:112-113 | Java `int` arithmetic agrees with the exact result whenever that result is in range, and otherwise differs from it by a multiple of 2^32 |
| DoubleBuffer.Fresh | nd4j-jcublas-parent/nd4j-jcublas-common/src/main/java/org/nd4j/linalg/jcublas/buffer/CudaDoubleDataBuffer.java:48-50 | the `int`-length constructor gives a live buffer of the requested length whose host array is still null, so `getDouble` throws NullPointer at every index |
| DoubleBuffer.FromArray | nd4j-jcublas-parent/nd4j-jcublas-common/src/main/java/org/nd4j/linalg/jcublas/buffer/CudaDoubleDataBuffer.java:48-60 | building from an array always passes `setData`'s length check, and yields a live buffer whose length is the array's and whose host array is that array |
| DoubleBuffer.SetData | nd4j-jcublas-parent/nd4j-jcublas-common/src/main/java/org/nd4j/linalg/jcublas/buffer/CudaDoubleDataBuffer.java:149-156 | a freed buffer throws UseAfterFree and is unchanged. On a live buffer the host array is replaced whatever the length, and the call succeeds exactly when the array's length equals `length`; otherwise it throws IllegalArgument with the new array already installed |
| DoubleBuffer.SetDataConverted | nd4j-jcublas-parent/nd4j-jcublas-common/src/main/java/org/nd4j/linalg/jcublas/buffer/CudaDoubleDataBuffer.java:139-147 | the `int[]`/`float[]` forms behave as `setData(double[])` on the elementwise cast: UseAfterFree on a freed buffer; otherwise the cast array is installed with `length` and liveness unchanged, and the call passes exactly when the lengths agree, throwing IllegalArgument otherwise |
| DoubleBuffer.GetDouble | nd4j-jcublas-parent/nd4j-jcublas-common/src/main/java/org/nd4j/linalg/jcublas/buffer/CudaDoubleDataBuffer.java:170-174 | reads element `i` exactly when the host array is set and `i` is within it. A null array gives NullPointer and any other index gives IndexOutOfBounds. Nothing depends on `freed` |
| DoubleBuffer.GetConverted | nd4j-jcublas-parent/nd4j-jcublas-common/src/main/java/org/nd4j/linalg/jcublas/buffer/CudaDoubleDataBuffer.java:176-184 | `getFloat`/`getNumber` succeed and fail exactly as `getDouble`, and return the cast of the element it reads |
| DoubleBuffer.Put | nd4j-jcublas-parent/nd4j-jcublas-common/src/main/java/org/nd4j/linalg/jcublas/buffer/CudaDoubleDataBuffer.java:192-196 | fails with UseAfterFree when freed, with NullPointer on a null array and with IndexOutOfBounds outside it. Otherwise it writes `x` at `i`, leaves every other element and the length alone, and keeps the array's length |
| DoubleBuffer.PutConverted | nd4j-jcublas-parent/nd4j-jcublas-common/src/main/java/org/nd4j/linalg/jcublas/buffer/CudaDoubleDataBuffer.java:187-201 | the `float`/`int` forms fail as `put(i, double)` does (UseAfterFree, NullPointer, IndexOutOfBounds, in that order). On success the buffer keeps its length and stays live, `getDouble(i)` reads the cast value, and every other index reads as before |
| DoubleBuffer.Dup | nd4j-jcublas-parent/nd4j-jcublas-common/src/main/java/org/nd4j/linalg/jcublas/buffer/CudaDoubleDataBuffer.java:209-216 | succeeds exactly on a live buffer, with a live buffer of the same length; a freed buffer gives UseAfterFree |
| DoubleBuffer.SetDataThenGet | nd4j-jcublas-parent/nd4j-jcublas-common/src/main/java/org/nd4j/linalg/jcublas/buffer/CudaDoubleDataBuffer.java:150-174 | after a successful `setData(xs)`, `getDouble(i)` is `xs[i]` for every `i < length` and throws IndexOutOfBounds elsewhere |
| DoubleBuffer.FromArrayReadsBack | nd4j-jcublas-parent/nd4j-jcublas-common/src/main/java/org/nd4j/linalg/jcublas/buffer/CudaDoubleDataBuffer.java:57-60 | a buffer built from an array reads back every element of that array |
| DoubleBuffer.SetDataMismatchStillInstalls | nd4j-jcublas-parent/nd4j-jcublas-common/src/main/java/org/nd4j/linalg/jcublas/buffer/CudaDoubleDataBuffer.java:152-154 | a failed length check is not state-preserving: at every index, `getDouble` afterwards reads the rejected array (its element, or IndexOutOfBounds outside it) |
| DoubleBuffer.PutThenGet | nd4j-jcublas-parent/nd4j-jcublas-common/src/main/java/org/nd4j/linalg/jcublas/buffer/CudaDoubleDataBuffer.java:171-196 | after a successful `put(i, x)`, `getDouble(i)` is `x` and `getDouble(j)` for every other `j` is what it was before |
| DoubleBuffer.DupAcceptsSameArrays | nd4j-jcublas-parent/nd4j-jcublas-common/src/main/java/org/nd4j/linalg/jcublas/buffer/CudaDoubleDataBuffer.java:209-216 | the duplicate of a live buffer accepts, in `setData`, exactly the arrays the original accepts |
| BulkAccess.AssignDoubles | nd4j-jcublas-parent/nd4j-jcublas-common/src/main/java/org/nd4j/linalg/jcublas/buffer/CudaDoubleDataBuffer.java:82-96 | checks in order: a length mismatch gives IllegalArgument, more indices than `length` gives IllegalArgument, and a non-contiguous request gives Unsupported. Empty contiguous arrays give IndexOutOfBounds from `indices[0]`. Otherwise it calls `set` at `indices[0]` with all the values and `inc`. There is no freed check |
| BulkAccess.AssignFloats | nd4j-jcublas-parent/nd4j-jcublas-common/src/main/java/org/nd4j/linalg/jcublas/buffer/CudaDoubleDataBuffer.java:63-80 | the same checks, preceded by the freed check (UseAfterFree): IllegalArgument for a length mismatch or too many indices, Unsupported when not contiguous, IndexOutOfBounds for empty contiguous arrays; succeeds exactly on a live buffer with contiguous, non-empty, equal-length arrays no longer than `length` |
| BulkAccess.AssignUsesOnlyFirstIndex | nd4j-jcublas-parent/nd4j-jcublas-common/src/main/java/org/nd4j/linalg/jcublas/buffer/CudaDoubleDataBuffer.java:84-92 | two index arrays of the same length and the same first entry give the same result: every later entry is ignored |
| BulkAccess.AssignOverloadsAgreeWhenLive | nd4j-jcublas-parent/nd4j-jcublas-common/src/main/java/org/nd4j/linalg/jcublas/buffer/CudaDoubleDataBuffer.java:63-96 | on a live buffer the two overloads give the same result. On a freed buffer the double overload still reaches `set`, with the same arguments as on a live buffer |
| BulkAccess.ReadLength | nd4j-jcublas-parent/nd4j-jcublas-common/src/main/java/org/nd4j/linalg/jcublas/buffer/CudaDoubleDataBuffer.java:112-113 | without overflow, the allocated length is `length` when `offset + length <= getLength()` and `length - offset` otherwise |
| BulkAccess.Gather | nd4j-jcublas-parent/nd4j-jcublas-common/src/main/java/org/nd4j/linalg/jcublas/buffer/CudaDoubleDataBuffer.java:118-120 | the loop succeeds exactly when every position `i * inc` (for `i < n`) lies in the view. It then returns `n` elements, element `i` being view position `i * inc`; otherwise it throws IndexOutOfBounds |
| BulkAccess.GetDoublesAt | nd4j-jcublas-parent/nd4j-jcublas-common/src/main/java/org/nd4j/linalg/jcublas/buffer/CudaDoubleDataBuffer.java:108-122 | a freed buffer gives UseAfterFree and a negative adjusted length gives NegativeArraySize. Any other failure on a live buffer is IndexOutOfBounds. A successful read returns the adjusted number of elements, element `k` being host element `offset + k * inc`, and succeeds exactly when all those positions exist |
| BulkAccess.GetDoublesAtUnitStride | nd4j-jcublas-parent/nd4j-jcublas-common/src/main/java/org/nd4j/linalg/jcublas/buffer/CudaDoubleDataBuffer.java:98-101 | is the strided read with step 1, and so when it succeeds returns one contiguous run of the host storage from `offset` |
| BulkAccess.GetFloatsAt | nd4j-jcublas-parent/nd4j-jcublas-common/src/main/java/org/nd4j/linalg/jcublas/buffer/CudaDoubleDataBuffer.java:124-128 | succeeds and fails exactly as the step-1 double read, whatever `inc` is, and returns the cast of each host element from `offset` on |
| BulkAccess.GetFloatsAtUnitStride | nd4j-jcublas-parent/nd4j-jcublas-common/src/main/java/org/nd4j/linalg/jcublas/buffer/CudaDoubleDataBuffer.java:103-106 | succeeds and fails exactly as `getDoublesAt(offset, length)`, with the same error. On success it returns the adjusted number of elements, element `k` being the cast of host element `offset + k` |
| BulkAccess.FloatReadsAgree | nd4j-jcublas-parent/nd4j-jcublas-common/src/main/java/org/nd4j/linalg/jcublas/buffer/CudaDoubleDataBuffer.java:103-128 | the three-argument float read does not depend on `inc` and equals the two-argument one |
| BulkAccess.InRangeReadIsSlice | nd4j-jcublas-parent/nd4j-jcublas-common/src/main/java/org/nd4j/linalg/jcublas/buffer/CudaDoubleDataBuffer.java:108-122 | a live read with `0 <= offset`, `0 <= length` and `offset + length <= getLength()`, and a host storage at least `getLength()` long, returns exactly host elements `offset .. offset + length` |
| BulkAccess.OverlongReadsAreNotClamped | nd4j-jcublas-parent/nd4j-jcublas-common/src/main/java/org/nd4j/linalg/jcublas/buffer/CudaDoubleDataBuffer.java:112-120 | on a 5-element buffer, reading 4 at offset 3 returns 1 element where 2 would fit. Reading 6 at offset 0 keeps length 6 and throws IndexOutOfBounds |
| BulkAccess.OverrunWithLargeOffsetIsNegativeArraySize | nd4j-jcublas-parent/nd4j-jcublas-common/src/main/java/org/nd4j/linalg/jcublas/buffer/CudaDoubleDataBuffer.java:112-115 | an overrunning read whose offset exceeds its length throws NegativeArraySize |
| Serialization.WriteObject | nd4j-jcublas-parent/nd4j-jcublas-common/src/main/java/org/nd4j/linalg/jcublas/buffer/CudaDoubleDataBuffer.java:219-233 | a null host pointer writes the lone count 0. Otherwise it writes the array's length followed by its elements in order |
| Serialization.ReadInt | nd4j-jcublas-parent/nd4j-jcublas-common/src/main/java/org/nd4j/linalg/jcublas/buffer/CudaDoubleDataBuffer.java:239 | reading the count succeeds exactly when the stream starts with an `int`, and consumes just that token |
| Serialization.ReadElems | nd4j-jcublas-parent/nd4j-jcublas-common/src/main/java/org/nd4j/linalg/jcublas/buffer/CudaDoubleDataBuffer.java:240-244 | reading `n` elements succeeds exactly when the stream starts with `n` element tokens, and then returns those `n` elements and exactly the rest of the stream |
| Serialization.Decode | nd4j-jcublas-parent/nd4j-jcublas-common/src/main/java/org/nd4j/linalg/jcublas/buffer/CudaDoubleDataBuffer.java:239-244 | every successful decode consumed exactly what `writeObject` writes for the decoded array. A failed count read passes its error on, a negative count throws NegativeArraySize, and every failure is EndOfStream, StreamCorrupted or NegativeArraySize |
| Serialization.ReadObject | nd4j-jcublas-parent/nd4j-jcublas-common/src/main/java/org/nd4j/linalg/jcublas/buffer/CudaDoubleDataBuffer.java:235-246 | a decoding failure leaves the buffer unchanged. A decoded array then goes through `setData`: UseAfterFree when freed; otherwise the array is installed, and the call passes exactly when the array's length equals `length`, throwing IllegalArgument otherwise |
| Serialization.ReadElemsOfElems | nd4j-jcublas-parent/nd4j-jcublas-common/src/main/java/org/nd4j/linalg/jcublas/buffer/CudaDoubleDataBuffer.java:229-244 | reading back as many elements as `xs` has from the tokens of `xs` returns `xs` and leaves the trailing stream |
| Serialization.DecodeAfterWrite | nd4j-jcublas-parent/nd4j-jcublas-common/src/main/java/org/nd4j/linalg/jcublas/buffer/CudaDoubleDataBuffer.java:219-244 | decoding after encoding returns the host array exactly, or the empty array for a null host pointer, and leaves the trailing stream |
| Serialization.DecodeIffWritten | nd4j-jcublas-parent/nd4j-jcublas-common/src/main/java/org/nd4j/linalg/jcublas/buffer/CudaDoubleDataBuffer.java:219-244 | a stream decodes to `xs` with a given remainder exactly when it is the encoding of `xs` followed by that remainder |
| Serialization.ReadAfterWrite | nd4j-jcublas-parent/nd4j-jcublas-common/src/main/java/org/nd4j/linalg/jcublas/buffer/CudaDoubleDataBuffer.java:219-246 | reading a written array into a live buffer installs that array, and succeeds exactly when its length equals the buffer's |
| Serialization.ReadIntoFreshIsFromArray | nd4j-jcublas-parent/nd4j-jcublas-common/src/main/java/org/nd4j/linalg/jcublas/buffer/CudaDoubleDataBuffer.java:57-60 | reading a written array into a fresh buffer of its length gives the same state and outcome as constructing from that array |
| Serialization.NullHostPointerReadsEmpty | nd4j-jcublas-parent/nd4j-jcublas-common/src/main/java/org/nd4j/linalg/jcublas/buffer/CudaDoubleDataBuffer.java:223-245 | what is written without a host pointer reads back as the empty array. This passes only for a buffer of length 0; any other buffer throws IllegalArgument |
| Lifecycle.FreedBufferFailsFast | nd4j-jcublas-parent/nd4j-jcublas-common/src/main/java/org/nd4j/linalg/jcublas/buffer/CudaDoubleDataBuffer.java:63-216 | on a freed buffer, these all throw UseAfterFree without changing it: `setData`, `put`, `dup`, `getDoublesAt`, both `getFloatsAt`, the float `assign` and `readObject` of a written array. `getDouble` behaves as on a live buffer, and the double `assign` reaches `set` with the same arguments as on a live buffer |

## Left out

- CUDA and JCublas calls are left out: `Pointer`, `Sizeof`, `KernelLauncher`, device allocation and device copies. They are foreign calls whose semantics are not visible here.
- The base-class members `set`, `getBuffer`, `copyTo`, `asDouble`, `getHostPointer`, `hostBuffer` and the body of `ensureNotFreed` are not part of this model. They appear only through the stated assumptions above.
- DoubleBuffer.Dup: does not state that the duplicate holds the original's content, because that copy is done by the base class's `copyTo`.
- BulkAccess.AssignDoubles: states the arguments passed to `set`, not which elements end up written, because `set` belongs to the base class.
- BulkAccess.AssignFloats: likewise stops at the arguments passed to `set`.
- Array aliasing is left out. `setData` stores the caller's array by reference, with no copy, and the array constructor passes the caller's array straight to it. In Java, later writes to that array change what `getDouble` reads, and `put` writes into the caller's array. The model's buffer holds an immutable sequence, so these writes through the other reference are not captured.
- Null array arguments are left out. In Java, `setData(null)` stores null and then throws NullPointerException at `data.length`, so it leaves the field null. The constructor and `assign` given a null array also throw NullPointerException. The model's arrays are sequences and are never null.
- `assign(Number value, int offset)` is left out. It indexes the view from `getBuffer(offset)` with absolute indices, so its meaning depends on base-class code that is not part of this model.
- `asBytes()` and `dataType()` are left out. The first returns the base class's `hostBuffer` bytes; the second returns a constant type tag.
- Numeric casts (`(float)`, `(int)`, `(double)`, `ArrayUtil.toFloats`/`toDoubles`) are abstract total maps passed as parameters. Their floating-point and truncation semantics are not modelled.
- Serialization.WriteObject: models the stream as one token per `writeInt`/`writeDouble` rather than as bytes. A token of the wrong kind is the StreamCorrupted error, where a real stream would reinterpret the bytes.
- Java object framing (`defaultWriteObject`/`defaultReadObject`), stream I/O errors other than end of stream, and concurrency are left out. `readObject` is applied to the buffer that default deserialisation produced.
- The `int`-length constructor's allocation in the base class, including a negative length, is not modelled. `Fresh` takes a length in `0 .. 2^31-1`.
- Out-of-memory on large allocations is not modelled.
