# bytes-utils-for-java in Dafny

This project models and proves the byte-level utilities of bytes-utils-for-java. They are:

- **The circular byte queue** `com.loopinsoftware.util.raw.Queue`. It has a fixed capacity and uses `head`, `tail` and `size` indices over one backing array. There are two insertion policies:
  - `push` evicts the oldest bytes;
  - `add` keeps them and takes only what fits.

  `peek` and `pop` read from `head`. `clear` and `reset` move the indices. Listeners hear `onFull` and `onEmpty`.
- **The flat compacting queue** `com.antoniovm.util.raw.Queue`. It holds `rawData[head .. tail)`, compacts to the front before a push, and advances `head` on a pop.
- **The first, size-only version of that queue** (`src/com/antoniovm/util/raw/Queue.java`).
- **The static shift-and-append `push(src, srcFrom, srcTo, dst, dstSize)`** that the queues share.
- **`ByteConverter`**, which splits a short, int or long into bytes of a caller's array and reads a value of up to four bytes back.
- **The modular step helpers** `increaseMod` and `decreaseMod` of `com.antoniovm.util.Math`.

Each Java class is modelled twice.

1. A module of pure functions over values computes what each method does, as written. Its names are `RingQueueModel`, `CompactingQueueModel`, `FlatPush` and `LegacyQueue`, and these modules also hold the properties, as lemmas.
   - `byte[]` is `seq<Int8>`.
   - A thrown exception is `Throw(e)` of a `Result`, and the partial writes made before a throw are kept.
   - `System.arraycopy` is `Java.Copy`, which throws exactly when the copy leaves either array.
2. A `class` with the Java fields carries the same methods, written with the Java statements and proved to leave its fields (and the caller's arrays) equal to what the model function computes. These are `RingQueue.Queue`, `CompactingQueue.Queue` and `LegacyQueue.Queue`.

The listener list is replaced by a ghost log of the notifications fired. Each entry records the `head`, `tail` and `size` a listener would observe from inside the callback.

Java semantics that matter here are written out in module `Java`:
- `%` truncates toward zero (`Rem`), and division by zero throws.
- `int` arithmetic wraps at 32 bits (`Wrap32`).
- `(byte)` narrows (`ToInt8`), and `& 0xFF` reads a byte as unsigned (`Unsigned`).
- Shift distances are masked: `ByteConverter.ShiftLeft32` for `int`, and the `% 64` in `GetByteAt` for `long`.

The model follows the code as written, including behaviour that looks unintended:

- **The second copy of a wrapping insert** (`loopinsoftware/.../Queue.java:246`) has length `srcTo - lastData`. This is the remaining count only when `srcFrom` is 0 and the count was not cut down by `add`.
  - The append lemmas are stated under exactly those conditions.
  - `InsertSecondChunkTooLong`, `InsertThrowsAfterWriting` and `AddOverwritesOldestByte` show concrete inputs where the write goes wrong.
- **The second part of a wrapped `peek`** lands at `dst[lastData]`, not at `dst[dstOffset + lastData]` (`Queue.java:329`).
  - `PeekCopiesOldest` covers offset 0 and reads that do not wrap.
  - `PeekWrappedAtOffsetMisplaces` shows the misplacement, and `PeekZeroCountThrows` shows that a request for no bytes still takes the split branch.
- **The legacy static `push`** copies from `dst` into `src` in its final `arraycopy` (line 149). Its displacement copy moves `dstSize` bytes rather than `dstSize - displaced` (line 144).
- **`decreaseMod(v, m)` for `1 <= v < m`** returns `v - 1 + m`, which is not reduced into `[0, m)`.
- **The `littleEndian` flag of `ByteConverter`** is modelled literally. With it off, the least significant byte is written and read first; with it on, the most significant byte comes first.
- **`setRawData` in the circular queue** keeps the old `head`. For a non-empty array, a size in `[0, data.length]` and an old `head` inside the new array, the ring invariant holds afterwards exactly when `head` was 0 (`SetRawDataConsistentIffHeadZero`). A negative size, an empty array or an old `head` outside the new array is accepted as well and leaves an inconsistent queue (`SetRawDataInconsistent`). Every constructor starts from `head == 0`.
- **`setRawData` in the compacting queue** sets the capacity to `size`, not to the array length, and also keeps `head`. For `0 <= head <= size` the invariant holds afterwards (`SetRawDataContents`). A negative size or a size below the old `head` is accepted as well. It leaves the queue inconsistent with a negative getSize(), and when the old `head` is positive the next compaction throws (`SetRawDataInconsistent`).

Capacity 0 is not excluded by preconditions. The divisions by zero it causes are modelled as `ArithmeticException` outcomes, and the invariants and content lemmas assume a capacity of at least 1.

## Model

Paths are relative to the repository root.

| member | source | states |
|---|---|---|
| Java.Min | src/main/java/com/loopinsoftware/util/raw/Queue.java:223 | Math.min: the result is one of the two arguments and no larger than either |
| Java.Rem | src/main/java/com/antoniovm/util/Math.java:47 | Java's `%`: the sign follows the dividend, the magnitude is below that of the divisor, and it is the Euclidean remainder for non-negative operands |
| Java.Wrap32 | src/main/java/com/antoniovm/util/Math.java:47 | an `int` result is congruent to the exact result modulo 2^32 and equal to it when it is in range |
| Java.ToInt8 | src/main/java/com/antoniovm/util/raw/ByteConverter.java:36 | the `(byte)` cast is congruent to its argument modulo 256 and equal to it when it is in range |
| Java.Unsigned | src/main/java/com/antoniovm/util/raw/ByteConverter.java:219 | `b & 0xFF` lies in [0, 256) and is congruent to `b` modulo 256 |
| Java.Copy | src/main/java/com/loopinsoftware/util/raw/Queue.java:243 | System.arraycopy as a value: it throws IndexOutOfBounds exactly when the range leaves either array, and otherwise keeps the destination length |
| Java.CopyWrites | src/main/java/com/loopinsoftware/util/raw/Queue.java:243 | element by element, a copy in bounds writes `dst[dstPos + k] := src[srcPos + k]` and leaves every other element alone |
| Java.CopyNothing | src/main/java/com/loopinsoftware/util/raw/Queue.java:249 | a zero-length copy at positions inside both arrays changes nothing |
| Java.ArrayCopy | src/main/java/com/loopinsoftware/util/raw/Queue.java:249 | System.arraycopy on arrays (possibly the same array): it throws, leaving `dst` unchanged, exactly when `Copy` does, and otherwise leaves `dst` equal to `Copy`'s result |
| FlatPush.Last | src/main/java/com/loopinsoftware/util/raw/Queue.java:137-138 | the newest `n` elements of a sequence: its length is min(length, n) and element i is the matching element from the end |
| FlatPush.LastOfLongSlice | src/main/java/com/loopinsoftware/util/raw/Queue.java:139-143 | when the slice alone has at least `n` elements, the newest `n` of prefix + slice are the slice's last `n` |
| FlatPush.CopyThenReturn | src/main/java/com/loopinsoftware/util/raw/Queue.java:159-161 | one arraycopy followed by `return remaining`: the length of `dst` is kept and a normal return yields `remaining` |
| FlatPush.Push | src/main/java/com/loopinsoftware/util/raw/Queue.java:124-162 | the static push: it throws IllegalArgument when `srcTo - srcFrom < 1`, returns `dst.length - (srcTo - srcFrom)` whenever it returns, and keeps the length of `dst` (the same code is src/main/java/com/antoniovm/util/raw/Queue.java:111-146) |
| FlatPush.PushSucceeds | src/main/java/com/loopinsoftware/util/raw/Queue.java:124-162 | exactly when a push of a non-empty range returns normally: for a slice longer than `dst`, only its last `dst.length` bytes must lie in `src`; otherwise the whole slice must lie in `src` and `dstSize` in `dst` |
| FlatPush.PushKeepsNewest | src/main/java/com/loopinsoftware/util/raw/Queue.java:124-162 | a successful push leaves the newest `dst.length` bytes of `dst[0 .. dstSize) + src[srcFrom .. srcTo)` at the front of `dst`, and when the slice fits, the bytes past `dstSize + n` untouched |
| FlatPush.CopyReturning | src/main/java/com/loopinsoftware/util/raw/Queue.java:142-143 | the copy-and-return step on arrays equals `CopyThenReturn` |
| FlatPush.PushAllInto | src/main/java/com/loopinsoftware/util/raw/Queue.java:108-110 | push(src, dst, dstSize) leaves `dst` and the result equal to `FlatPush.Push` of the whole of `src` (the same overload is src/main/java/com/antoniovm/util/raw/Queue.java:91-93) |
| FlatPush.PushInto | src/main/java/com/loopinsoftware/util/raw/Queue.java:124-162 | the static push on two distinct arrays leaves `dst` and the result equal to `FlatPush.Push` |
| FlatPush.PushFitting | src/main/java/com/loopinsoftware/util/raw/Queue.java:146-161 | the displacement and the final copy, for a slice no longer than `dst`, equal `FlatPush.Push` |
| RingQueueModel.RemWraps | src/main/java/com/loopinsoftware/util/raw/Queue.java:245 | on an index less than one turn past the end, Java's `%` subtracts the capacity at most once |
| RingQueueModel.Contents | src/main/java/com/loopinsoftware/util/raw/Queue.java:33-53 | the queued bytes, oldest first, read round the array from `head`: there are exactly `size` of them |
| RingQueueModel.IsEmpty | src/main/java/com/loopinsoftware/util/raw/Queue.java:445-447 | for a consistent queue, isEmpty holds exactly when there are no contents |
| RingQueueModel.IsFull | src/main/java/com/loopinsoftware/util/raw/Queue.java:454-456 | with a capacity of at least one, a full queue is not empty |
| RingQueueModel.EmptyAndFull | src/main/java/com/loopinsoftware/util/raw/Queue.java:454-456 | for a consistent queue, isFull holds exactly when there are `capacity` bytes |
| RingQueueModel.FireOnFull | src/main/java/com/loopinsoftware/util/raw/Queue.java:481-485 | only the notification log changes, by one Full entry carrying the current head, tail and size |
| RingQueueModel.FireOnEmpty | src/main/java/com/loopinsoftware/util/raw/Queue.java:490-494 | only the notification log changes, by one Empty entry carrying the current head, tail and size |
| RingQueueModel.SetRawData | src/main/java/com/loopinsoftware/util/raw/Queue.java:401-420 | it throws IndexOutOfBounds exactly when `size > data.length` |
| RingQueueModel.Initial | src/main/java/com/loopinsoftware/util/raw/Queue.java:94-97 | the constructor throws exactly when `size > data.length` |
| RingQueueModel.SetRawDataConsistentIffHeadZero | src/main/java/com/loopinsoftware/util/raw/Queue.java:401-420 | setRawData keeps `head`, leaves the ring invariant holding iff `head` was 0, and then the contents are `data[0 .. size)` |
| RingQueueModel.SetRawDataInconsistent | src/main/java/com/loopinsoftware/util/raw/Queue.java:401-420 | a negative size, an empty array or an old `head` outside the new array is accepted without a throw and leaves the ring invariant broken |
| RingQueueModel.InitialIsConsistent | src/main/java/com/loopinsoftware/util/raw/Queue.java:94-97 | a constructed queue holds the invariant, contents `data[0 .. size)` and initial size `size`, and has sent no notification |
| RingQueueModel.Clear | src/main/java/com/loopinsoftware/util/raw/Queue.java:383-387 | clear leaves the queue empty with head and tail at 0, and keeps the storage, the initial size and the notifications |
| RingQueueModel.ClearEmpties | src/main/java/com/loopinsoftware/util/raw/Queue.java:383-387 | clear keeps the invariant and empties the contents; it changes neither the storage, the initial size nor the notifications |
| RingQueueModel.Reset | src/main/java/com/loopinsoftware/util/raw/Queue.java:499-503 | reset sets size and tail to the initial size and head to 0, and keeps the storage, the initial size and the notifications |
| RingQueueModel.ResetExposesInitialBytes | src/main/java/com/loopinsoftware/util/raw/Queue.java:499-503 | reset keeps the invariant and makes the first `initialSize` bytes of the storage the contents |
| RingQueueModel.AfterInsert | src/main/java/com/loopinsoftware/util/raw/Queue.java:260-262 | the end of an insert returns normally, changes nothing but the log, and logs Full iff the queue was not full and is full now |
| RingQueueModel.Accepted | src/main/java/com/loopinsoftware/util/raw/Queue.java:218-224 | `push` takes every byte; `add` takes the whole count or exactly the free space, whichever is smaller |
| RingQueueModel.Insert | src/main/java/com/loopinsoftware/util/raw/Queue.java:205-264 | insert throws IllegalArgument, changing nothing, when `srcTo - srcFrom < 1`; `add` on a full queue changes nothing; the capacity and the initial size never change |
| RingQueueModel.InsertOverflow | src/main/java/com/loopinsoftware/util/raw/Queue.java:227-235 | the data-overflow branch keeps the capacity and the initial size |
| RingQueueModel.InsertRing | src/main/java/com/loopinsoftware/util/raw/Queue.java:238-258 | the circular write keeps the capacity and the initial size |
| RingQueueModel.InsertWrapped | src/main/java/com/loopinsoftware/util/raw/Queue.java:242-247 | the first copy of a wrapping write keeps the capacity and the initial size |
| RingQueueModel.InsertLast | src/main/java/com/loopinsoftware/util/raw/Queue.java:249-258 | the last copy and the index updates keep the capacity and the initial size |
| RingQueueModel.WriteRing | src/main/java/com/loopinsoftware/util/raw/Queue.java:243-249 | the storage after a circular write from a slot keeps its length |
| RingQueueModel.AppendedInv | src/main/java/com/loopinsoftware/util/raw/Queue.java:238-258 | the intended append (circular write at `tail`, `tail` and `head` advanced, size saturated) keeps the ring invariant |
| RingQueueModel.AppendedContents | src/main/java/com/loopinsoftware/util/raw/Queue.java:238-258 | the intended append leaves as contents the newest `capacity` bytes of old contents + chunk |
| RingQueueModel.TwoCopiesWriteRing | src/main/java/com/loopinsoftware/util/raw/Queue.java:243-249 | the two arraycopy calls of a wrapping insert with an exact second length write the bytes circularly from `tail` |
| RingQueueModel.InsertLastUpdates | src/main/java/com/loopinsoftware/util/raw/Queue.java:249-258 | after a last copy in bounds, `tail` and `head` advance by one-turn wraps and `size` becomes min(capacity, size + n) |
| RingQueueModel.InsertRingNoWrap | src/main/java/com/loopinsoftware/util/raw/Queue.java:238-258 | bytes that fit before the end of the array are exactly the intended append |
| RingQueueModel.InsertRingSplit | src/main/java/com/loopinsoftware/util/raw/Queue.java:242-249 | the wrap branch, after a first copy in bounds, continues with the last copy of length `srcTo - lastData` |
| RingQueueModel.InsertRingWrap | src/main/java/com/loopinsoftware/util/raw/Queue.java:238-258 | bytes that cross the end of the array, when `srcTo` equals the count, are exactly the intended append |
| RingQueueModel.AppendedIs | src/main/java/com/loopinsoftware/util/raw/Queue.java:249-258 | the intended append, field by field |
| RingQueueModel.InsertRingAtEnd | src/main/java/com/loopinsoftware/util/raw/Queue.java:238-258 | with `tail` at the capacity, the empty first copy and the copy at slot 0 are the intended append |
| RingQueueModel.InsertRingAppends | src/main/java/com/loopinsoftware/util/raw/Queue.java:238-258 | a write that does not wrap, or one with `srcTo` equal to the count, is exactly the intended append |
| RingQueueModel.AppendOutcome | src/main/java/com/loopinsoftware/util/raw/Queue.java:238-262 | an append and its notification: it keeps the invariant; the contents become the newest `capacity` bytes of old + chunk; size becomes min(capacity, size + n); head advances by the overflow; Full is logged iff the queue becomes full |
| RingQueueModel.NotifyingKeepsContents | src/main/java/com/loopinsoftware/util/raw/Queue.java:481-494 | firing a notification changes neither the invariant nor the contents |
| RingQueueModel.InsertTakesRing | src/main/java/com/loopinsoftware/util/raw/Queue.java:205-258 | with a source array no longer than the capacity, insert is the circular write of the accepted count |
| RingQueueModel.InsertAppends | src/main/java/com/loopinsoftware/util/raw/Queue.java:205-262 | with a source array no longer than the capacity and an exact split, either policy is the intended append of the accepted bytes followed by the Full check |
| RingQueueModel.PushOverwritesOldest | src/main/java/com/loopinsoftware/util/raw/Queue.java:238-258 | `push(src, 0, srcTo)` with `src.length <= capacity` succeeds, keeps the invariant, leaves the newest `capacity` bytes of old contents + `src[0 .. srcTo)`, sets size to min(capacity, size + n) and advances head by the overflow |
| RingQueueModel.AddKeepsHead | src/main/java/com/loopinsoftware/util/raw/Queue.java:218-258 | `add` on a queue that is not full, when it returns, never moves `head` and accepts min(n, free space) bytes |
| RingQueueModel.AddAppends | src/main/java/com/loopinsoftware/util/raw/Queue.java:218-258 | `add` with an exact split (no wrap, or a range from 0 that fits the free space) appends the accepted bytes in order behind the old contents |
| RingQueueModel.AppendFitting | src/main/java/com/loopinsoftware/util/raw/Queue.java:238-262 | an append within the free space puts the chunk behind the old contents and keeps the invariant |
| RingQueueModel.InsertRingCounts | src/main/java/com/loopinsoftware/util/raw/Queue.java:249-258 | whatever the copies do, a circular write that returns normally sets size to min(capacity, size + n) and moves head only by the eviction |
| RingQueueModel.WholeStorage | src/main/java/com/loopinsoftware/util/raw/Queue.java:229-231 | a full queue with head = tail = 0 is consistent and its contents are the whole storage |
| RingQueueModel.OverflowReplacesStorage | src/main/java/com/loopinsoftware/util/raw/Queue.java:227-235 | a source array longer than the capacity (unless `add` meets a full queue) gives head = tail = 0 and size = capacity, with storage equal to the newest `capacity` bytes of old storage + slice, which is the slice's last `capacity` bytes when it is that long |
| RingQueueModel.InsertNotifiesFullOnEdge | src/main/java/com/loopinsoftware/util/raw/Queue.java:215-262 | every insert logs Full exactly when it returns normally and takes the size from below the capacity to the capacity, carrying the updated indices; otherwise it logs nothing |
| RingQueueModel.Peek | src/main/java/com/loopinsoftware/util/raw/Queue.java:304-335 | an empty queue yields 0 without checking the arguments; a non-empty one throws IndexOutOfBounds, leaving `dst` unchanged, on a negative count or offset or on `count + offset > dst.length`; a normal result is min(count, size) |
| RingQueueModel.PeekReturnsCount | src/main/java/com/loopinsoftware/util/raw/Queue.java:304-335 | on a consistent non-empty queue, valid arguments with count >= 1 return min(count, size) and never throw |
| RingQueueModel.PeekDirect | src/main/java/com/loopinsoftware/util/raw/Queue.java:330-332 | a read ending before the end of the array is one copy of k bytes from `head` |
| RingQueueModel.PeekSplit | src/main/java/com/loopinsoftware/util/raw/Queue.java:327-329 | a read that reaches the end of the array is two copies in bounds: [head, capacity) to `dst[offset ..]`, then [0, endIndex) to `dst[lastData ..]` |
| RingQueueModel.PeekCopiesDirect | src/main/java/com/loopinsoftware/util/raw/Queue.java:330-332 | a direct read copies the k oldest bytes to `dst[offset .. offset + k)` and leaves the rest |
| RingQueueModel.PeekCopiesWrapped | src/main/java/com/loopinsoftware/util/raw/Queue.java:327-329 | a wrapped read at offset 0 copies the k oldest bytes to `dst[0 .. k)` and leaves the rest |
| RingQueueModel.TwoCopiesReadOldest | src/main/java/com/loopinsoftware/util/raw/Queue.java:327-329 | the two copies of a wrapped read at offset 0 put the k oldest bytes at the front of `dst` |
| RingQueueModel.PeekCopiesOldest | src/main/java/com/loopinsoftware/util/raw/Queue.java:304-335 | for count >= 1 and either offset 0 or a read that does not wrap, peek returns k = min(count, size), puts `Contents[0 .. k)` at `dst[offset .. offset + k)` and leaves the rest of `dst` |
| RingQueueModel.Pop | src/main/java/com/loopinsoftware/util/raw/Queue.java:356-368 | pop never changes the storage; `dst` is what peek leaves; the result is peek's; a throwing pop leaves the queue unchanged |
| RingQueueModel.PopCases | src/main/java/com/loopinsoftware/util/raw/Queue.java:356-368 | pop by the outcome of its peek: a throw, the division by a zero capacity, or the index update and Empty check |
| RingQueueModel.DropOldest | src/main/java/com/loopinsoftware/util/raw/Queue.java:360-361 | moving head past k queued bytes keeps the invariant and drops exactly the k oldest |
| RingQueueModel.PopRemovesOldest | src/main/java/com/loopinsoftware/util/raw/Queue.java:356-368 | a successful pop returns k <= size, decrements size by k, advances head by k round the ring, keeps the invariant, removes exactly the k oldest bytes, and logs Empty exactly when it takes the size from above 0 to 0 |
| RingQueueModel.RemovalsKeepStorage | src/main/java/com/loopinsoftware/util/raw/Queue.java:356-387 | pops and clears never change the storage or the initial size |
| RingQueueModel.ResetAfterRemovalsRestoresInitial | src/main/java/com/loopinsoftware/util/raw/Queue.java:499-503 | any pops and clears after construction, followed by reset, give back exactly the constructor's bytes |
| RingQueueModel.PushIntoEmpty | src/main/java/com/loopinsoftware/util/raw/Queue.java:205-264 | a push of 1 .. capacity bytes into an empty queue leaves it consistent, holding exactly those bytes |
| RingQueueModel.PopEverything | src/main/java/com/loopinsoftware/util/raw/Queue.java:356-368 | a pop of `size` bytes into a large enough array returns `size`, puts all the contents in front, and leaves the queue consistent and empty |
| RingQueueModel.PushThenPopReturnsBytes | src/main/java/com/loopinsoftware/util/raw/Queue.java:193-195 | bytes pushed into an empty queue come back out of one pop, in order, leaving it empty |
| RingQueueModel.InsertSecondChunkTooLong | src/main/java/com/loopinsoftware/util/raw/Queue.java:246 | pushing `src[1 .. 3)` into a queue whose tail is at the last slot copies three bytes and leaves the ring inconsistent |
| RingQueueModel.InsertThrowsAfterWriting | src/main/java/com/loopinsoftware/util/raw/Queue.java:243-249 | the same length can make the second copy throw after the first part is written and `tail` moved |
| RingQueueModel.AddOverwritesOldestByte | src/main/java/com/loopinsoftware/util/raw/Queue.java:246 | `add` of a range truncated to the free space can still overwrite the oldest queued byte |
| RingQueueModel.PeekWrappedAtOffsetMisplaces | src/main/java/com/loopinsoftware/util/raw/Queue.java:329 | a wrapped read at offset 1 puts the second part at `dst[lastData]` |
| RingQueueModel.PeekZeroCountThrows | src/main/java/com/loopinsoftware/util/raw/Queue.java:323-329 | a request for zero bytes from a non-empty queue takes the split branch and throws on an empty destination |
| RingQueue.PeekWrapCases | src/main/java/com/loopinsoftware/util/raw/Queue.java:327-329 | peek's wrapped read by which of its two copies throws |
| RingQueue.PeekDirectCases | src/main/java/com/loopinsoftware/util/raw/Queue.java:330-332 | peek's direct read by whether its copy throws |
| RingQueue.Queue.New | src/main/java/com/loopinsoftware/util/raw/Queue.java:94-97 | the constructor throws iff `size > data.length`, and otherwise gives the state `Initial`, with a fresh array exactly when `copy` |
| RingQueue.Queue.Init | src/main/java/com/loopinsoftware/util/raw/Queue.java:94-97 | the object `Init` builds has the state `Initial` |
| RingQueue.Queue.WithSize | src/main/java/com/loopinsoftware/util/raw/Queue.java:83-85 | Queue(data, size) is Queue(data, size, false): IndexOutOfBounds iff `size > data.length`, else the queue over `data` itself in the state Initial gives |
| RingQueue.Queue.FromArray | src/main/java/com/loopinsoftware/util/raw/Queue.java:73-75 | Queue(data) shares the array and queues nothing |
| RingQueue.Queue.WithCapacity | src/main/java/com/loopinsoftware/util/raw/Queue.java:64-66 | Queue(capacity) throws NegativeArraySize for a negative capacity and otherwise gives a zero-filled fresh array with nothing queued |
| RingQueue.Queue.SetRawData | src/main/java/com/loopinsoftware/util/raw/Queue.java:401-420 | it throws iff `size > data.length`, changing nothing, and otherwise gives `RingQueueModel.SetRawData`'s state, with a fresh array exactly when `copy` |
| RingQueue.Queue.GetSize | src/main/java/com/loopinsoftware/util/raw/Queue.java:427-429 | the number of queued bytes |
| RingQueue.Queue.GetCapacity | src/main/java/com/loopinsoftware/util/raw/Queue.java:436-438 | the length of the storage array |
| RingQueue.Queue.IsEmpty | src/main/java/com/loopinsoftware/util/raw/Queue.java:445-447 | isEmpty() on the object is the model's IsEmpty of its state |
| RingQueue.Queue.IsFull | src/main/java/com/loopinsoftware/util/raw/Queue.java:454-456 | isFull() compares with the capacity field and, while that equals the array length, is the model's IsFull of the state |
| RingQueue.Queue.FireOnFull | src/main/java/com/loopinsoftware/util/raw/Queue.java:481-485 | one Full entry is appended to the log |
| RingQueue.Queue.FireOnEmpty | src/main/java/com/loopinsoftware/util/raw/Queue.java:490-494 | one Empty entry is appended to the log |
| RingQueue.Queue.Clear | src/main/java/com/loopinsoftware/util/raw/Queue.java:383-387 | the fields become `RingQueueModel.Clear` of the old ones |
| RingQueue.Queue.Reset | src/main/java/com/loopinsoftware/util/raw/Queue.java:499-503 | the fields become `RingQueueModel.Reset` of the old ones |
| RingQueue.Queue.Insert | src/main/java/com/loopinsoftware/util/raw/Queue.java:205-264 | the fields, the storage and the result become `RingQueueModel.Insert` of the old state |
| RingQueue.Queue.InsertOverflow | src/main/java/com/loopinsoftware/util/raw/Queue.java:227-235 | the overflow branch on the object equals `RingQueueModel.InsertOverflow` |
| RingQueue.Queue.InsertRing | src/main/java/com/loopinsoftware/util/raw/Queue.java:238-258 | the circular write on the object equals `RingQueueModel.InsertRing` |
| RingQueue.Queue.InsertWrapping | src/main/java/com/loopinsoftware/util/raw/Queue.java:242-258 | the wrap branch on the object equals `RingQueueModel.InsertRing` |
| RingQueue.Queue.InsertAfterWrap | src/main/java/com/loopinsoftware/util/raw/Queue.java:244-258 | the rest of the wrap branch after the first copy equals `RingQueueModel.InsertRing` |
| RingQueue.Queue.InsertLast | src/main/java/com/loopinsoftware/util/raw/Queue.java:249-258 | the last copy and the index updates equal `RingQueueModel.InsertLast` |
| RingQueue.Queue.Push | src/main/java/com/loopinsoftware/util/raw/Queue.java:193-195 | push(src, srcFrom, srcTo) is insert with overwriting |
| RingQueue.Queue.PushAll | src/main/java/com/loopinsoftware/util/raw/Queue.java:271-273 | push(src) is insert of the whole array with overwriting |
| RingQueue.Queue.Add | src/main/java/com/loopinsoftware/util/raw/Queue.java:182-184 | add(src, srcFrom, srcTo) is insert without overwriting |
| RingQueue.Queue.AddAll | src/main/java/com/loopinsoftware/util/raw/Queue.java:170-172 | add(src) is insert of the whole array without overwriting |
| RingQueue.Queue.Peek | src/main/java/com/loopinsoftware/util/raw/Queue.java:304-335 | peek changes no field and leaves `dst` and the result equal to `RingQueueModel.Peek` |
| RingQueue.Queue.PeekWrapped | src/main/java/com/loopinsoftware/util/raw/Queue.java:327-329 | the split copy on arrays equals `RingQueueModel.Peek` |
| RingQueue.Queue.PeekCount | src/main/java/com/loopinsoftware/util/raw/Queue.java:292-294 | peek(dst, n) is peek at offset 0 |
| RingQueue.Queue.PeekAll | src/main/java/com/loopinsoftware/util/raw/Queue.java:281-283 | peek(dst) asks for `dst.length` bytes at offset 0 |
| RingQueue.Queue.GetRawData | src/main/java/com/loopinsoftware/util/raw/Queue.java:392-394 | getRawData(data) is peek(data) with the count dropped |
| RingQueue.Queue.Pop | src/main/java/com/loopinsoftware/util/raw/Queue.java:356-368 | the fields, `dst` and the result become `RingQueueModel.Pop` of the old state |
| RingQueue.Queue.PopCount | src/main/java/com/loopinsoftware/util/raw/Queue.java:344-346 | pop(dst, n) is pop at offset 0 |
| RingQueue.Queue.PopAll | src/main/java/com/loopinsoftware/util/raw/Queue.java:376-378 | pop(dst) asks for `dst.length` bytes at offset 0 |
| CompactingQueueModel.Size | src/main/java/com/antoniovm/util/raw/Queue.java:233-235 | in a consistent queue, getSize() is the number of queued bytes `rawData[head .. tail)` |
| CompactingQueueModel.SetRawData | src/main/java/com/antoniovm/util/raw/Queue.java:208-226 | it throws IndexOutOfBounds exactly when `size > data.length` |
| CompactingQueueModel.Initial | src/main/java/com/antoniovm/util/raw/Queue.java:75-77 | the constructor throws exactly when `size > data.length` |
| CompactingQueueModel.SetRawDataContents | src/main/java/com/antoniovm/util/raw/Queue.java:208-226 | for 0 <= old head <= size <= data.length, setRawData sets capacity = tail = size, keeps head, leaves the invariant holding and queues `data[head .. size)`; a constructed queue queues `data[0 .. size)` |
| CompactingQueueModel.SetRawDataInconsistent | src/main/java/com/antoniovm/util/raw/Queue.java:208-226 | a negative size, a size below the old head or a negative old head is accepted without a throw and breaks the invariant; with a size below the head getSize() is negative, and if that head is positive moveToInitialPosition throws |
| CompactingQueueModel.MoveToInitialPosition | src/main/java/com/antoniovm/util/raw/Queue.java:240-247 | compaction keeps the array length and the capacity |
| CompactingQueueModel.MoveToInitialPositionKeepsContents | src/main/java/com/antoniovm/util/raw/Queue.java:240-247 | on a consistent queue compaction never throws, sets head to 0, and keeps the size, the contents and the invariant |
| CompactingQueueModel.Push | src/main/java/com/antoniovm/util/raw/Queue.java:160-176 | the instance push keeps the array length and the capacity |
| CompactingQueueModel.PushKeepsNewest | src/main/java/com/antoniovm/util/raw/Queue.java:160-176 | with capacity equal to the array length, a push of a slice inside `src` returns `rawData.length - n`, sets size to min(capacity, size + n), keeps the invariant with head 0, and leaves the newest `capacity` bytes of old contents + slice |
| CompactingQueueModel.CompactedPush | src/main/java/com/antoniovm/util/raw/Queue.java:162-173 | the static push and the new `tail` on a compacted queue give that outcome |
| CompactingQueueModel.PushEmptyRangeThrows | src/main/java/com/antoniovm/util/raw/Queue.java:160-162 | an empty range throws IllegalArgument after compacting, with the contents unchanged and head 0 |
| CompactingQueueModel.PushKeepsInv | src/main/java/com/antoniovm/util/raw/Queue.java:160-176 | push keeps `0 <= head <= tail <= capacity <= rawData.length` whatever its arguments and outcome |
| CompactingQueueModel.Pop | src/main/java/com/antoniovm/util/raw/Queue.java:275-289 | pop keeps the length of `dst`; on an empty queue it sets head = tail = 0 and returns 0 |
| CompactingQueueModel.PopTakesOldest | src/main/java/com/antoniovm/util/raw/Queue.java:283-288 | a pop from a non-empty queue into a non-empty array returns k = min(size, dst.length), puts the k oldest bytes in `dst[0 .. k)`, leaves the rest of `dst`, advances head by k and removes exactly those bytes |
| CompactingQueueModel.PopIntoEmptyArrayThrows | src/main/java/com/antoniovm/util/raw/Queue.java:283-284 | a pop from a non-empty queue into an empty array throws IllegalArgument and changes nothing |
| CompactingQueueModel.PopKeepsInv | src/main/java/com/antoniovm/util/raw/Queue.java:275-297 | pop keeps the invariant whatever its arguments and outcome |
| CompactingQueue.Queue.New | src/main/java/com/antoniovm/util/raw/Queue.java:75-77 | the constructor throws iff `size > data.length`, and otherwise gives the state `Initial`, with a fresh array exactly when `copy` |
| CompactingQueue.Queue.Init | src/main/java/com/antoniovm/util/raw/Queue.java:75-77 | the object `Init` builds has the state `Initial` |
| CompactingQueue.Queue.WithSize | src/main/java/com/antoniovm/util/raw/Queue.java:61-63 | Queue(data, size) is Queue(data, size, false): IndexOutOfBounds iff `size > data.length`, else the queue over `data` itself in the state Initial gives |
| CompactingQueue.Queue.FromArray | src/main/java/com/antoniovm/util/raw/Queue.java:49-51 | Queue(data) shares the array and queues all of it |
| CompactingQueue.Queue.WithCapacity | src/main/java/com/antoniovm/util/raw/Queue.java:39-41 | Queue(capacity) throws NegativeArraySize for a negative capacity and otherwise queues a fresh zero-filled array in full |
| CompactingQueue.Queue.SetRawData | src/main/java/com/antoniovm/util/raw/Queue.java:208-226 | it throws iff `size > data.length`, changing nothing, and otherwise gives `CompactingQueueModel.SetRawData`'s state, with a fresh array exactly when `copy` |
| CompactingQueue.Queue.GetRawData | src/main/java/com/antoniovm/util/raw/Queue.java:195-197 | the storage array itself |
| CompactingQueue.Queue.GetSize | src/main/java/com/antoniovm/util/raw/Queue.java:233-235 | `tail - head`, the number of queued bytes |
| CompactingQueue.Queue.GetCapacity | src/main/java/com/antoniovm/util/raw/Queue.java:254-256 | the capacity field |
| CompactingQueue.Queue.SetCapacity | src/main/java/com/antoniovm/util/raw/Queue.java:264-266 | only the capacity changes, unchecked |
| CompactingQueue.Queue.MoveToInitialPosition | src/main/java/com/antoniovm/util/raw/Queue.java:240-247 | the in-place shift leaves the fields equal to `CompactingQueueModel.MoveToInitialPosition`, or throws as it does |
| CompactingQueue.Queue.Push | src/main/java/com/antoniovm/util/raw/Queue.java:160-176 | the fields, the storage and the result become `CompactingQueueModel.Push` of the old state |
| CompactingQueue.Queue.PushAll | src/main/java/com/antoniovm/util/raw/Queue.java:186-188 | push(src) is push of the whole array |
| CompactingQueue.Queue.Pop | src/main/java/com/antoniovm/util/raw/Queue.java:275-289 | the fields, `dst` and the result become `CompactingQueueModel.Pop` of the old state |
| CompactingQueue.Queue.Clear | src/main/java/com/antoniovm/util/raw/Queue.java:294-297 | head and tail become 0 and nothing else changes |
| LegacyQueue.CopyBack | src/com/antoniovm/util/raw/Queue.java:149 | the final copy writes only `src` and returns `remaining` |
| LegacyQueue.StaticPush | src/com/antoniovm/util/raw/Queue.java:117-152 | the static push throws IllegalArgument, changing nothing, when `srcTo - srcFrom < 1`, and returns `dst.length - (srcTo - srcFrom)` whenever it returns |
| LegacyQueue.PushTruncates | src/com/antoniovm/util/raw/Queue.java:131-136 | a slice longer than `dst` replaces `dst` with its last `dst.length` bytes and leaves `src` alone |
| LegacyQueue.PushCopiesBackwards | src/com/antoniovm/util/raw/Queue.java:149 | a slice that fits without displacement leaves `dst` unchanged and overwrites `src[srcFrom .. srcTo)` with `dst[dstSize .. dstSize + n)` |
| LegacyQueue.DisplacementInBounds | src/com/antoniovm/util/raw/Queue.java:139-146 | with displacement d > 0, the shift of `dstSize` bytes from d throws, leaving both arrays unchanged, iff `d + dstSize > dst.length`, and otherwise moves `dst[d .. d + dstSize)` to the front |
| LegacyQueue.PushOntoFullThrows | src/com/antoniovm/util/raw/Queue.java:139-144 | a slice that fits `dst`, pushed with `dstSize == dst.length`, always throws IndexOutOfBounds and changes nothing |
| LegacyQueue.PushOnto | src/com/antoniovm/util/raw/Queue.java:166-181 | the instance push sets size to min(data.length, size + n) whenever it returns, whatever the copies did, and leaves the size alone when it throws |
| LegacyQueue.PushKeepsSizeInRange | src/com/antoniovm/util/raw/Queue.java:166-181 | a size within the array stays within it and never shrinks on a successful push |
| LegacyQueue.Queue.New | src/com/antoniovm/util/raw/Queue.java:67-83 | the constructor throws IndexOutOfBounds iff `size > data.length`, and otherwise stores the array contents and `size`, with a fresh array exactly when `copy` |
| LegacyQueue.Queue.Init | src/com/antoniovm/util/raw/Queue.java:67-83 | the object `Init` builds holds the array contents and `size` |
| LegacyQueue.Queue.WithSize | src/com/antoniovm/util/raw/Queue.java:53-55 | Queue(data, size) is Queue(data, size, false): IndexOutOfBounds iff `size > data.length`, else the array itself with that size |
| LegacyQueue.Queue.FromArray | src/com/antoniovm/util/raw/Queue.java:41-43 | Queue(data) shares the array with size 0 |
| LegacyQueue.Queue.WithCapacity | src/com/antoniovm/util/raw/Queue.java:31-33 | Queue(capacity) throws NegativeArraySize for a negative capacity and otherwise gives a fresh zero-filled array with size 0 |
| LegacyQueue.Queue.PushInto | src/com/antoniovm/util/raw/Queue.java:117-152 | the static push on two distinct arrays leaves both arrays and the result equal to `LegacyQueue.StaticPush` |
| LegacyQueue.Queue.CopyBackInto | src/com/antoniovm/util/raw/Queue.java:149 | the reversed final copy on arrays equals `LegacyQueue.CopyBack` |
| LegacyQueue.Queue.PushAllInto | src/com/antoniovm/util/raw/Queue.java:97-99 | push(src, dst, dstSize) is the static push of the whole of `src` |
| LegacyQueue.Queue.Push | src/com/antoniovm/util/raw/Queue.java:166-181 | the size, both arrays and the result become `LegacyQueue.PushOnto` of the old state |
| LegacyQueue.Queue.PushAll | src/com/antoniovm/util/raw/Queue.java:191-193 | push(src) is push of the whole array |
| LegacyQueue.Queue.GetData | src/com/antoniovm/util/raw/Queue.java:198-200 | the storage array itself |
| LegacyQueue.Queue.SetData | src/com/antoniovm/util/raw/Queue.java:209-212 | both fields are replaced verbatim |
| LegacyQueue.Queue.SetSize | src/com/antoniovm/util/raw/Queue.java:218-220 | the size is replaced verbatim |
| LegacyQueue.Queue.GetSize | src/com/antoniovm/util/raw/Queue.java:225-227 | the size field verbatim |
| ByteConverter.GetByteAt | src/main/java/com/antoniovm/util/raw/ByteConverter.java:35-38 | for 0 <= p <= 7, getByteAt(v, p) read under `& 0xFF` is bits 8p .. 8p+7 of v |
| ByteConverter.GetByteAtBits | src/main/java/com/antoniovm/util/raw/ByteConverter.java:35-38 | for 0 <= p <= 7, getByteAt(v, p) is bits 8p .. 8p+7 of v read as a signed byte |
| ByteConverter.ToBytes | src/main/java/com/antoniovm/util/raw/ByteConverter.java:105-107 | the bytes the loop writes, one per position of the width |
| ByteConverter.Encode | src/main/java/com/antoniovm/util/raw/ByteConverter.java:96-109 | toBytesArray succeeds iff `start + width <= bytes.length` and no write falls before the array; it throws IndexOutOfBounds otherwise; on success it writes exactly `bytes[start .. start + width)` and leaves every other element unchanged |
| ByteConverter.EncodeByteOrder | src/main/java/com/antoniovm/util/raw/ByteConverter.java:97-107 | with littleEndian off, `bytes[start + k] == getByteAt(v, k)`; with it on, `getByteAt(v, width - 1 - k)` |
| ByteConverter.ToBytesArray | src/main/java/com/antoniovm/util/raw/ByteConverter.java:96-109 | the loop leaves the array equal to `Encode`, or throws IndexOutOfBounds exactly when `Encode` does, before writing anything |
| ByteConverter.ShortToBytesAt | src/main/java/com/antoniovm/util/raw/ByteConverter.java:155-157 | a short is encoded in two bytes from `start` |
| ByteConverter.IntToBytesAt | src/main/java/com/antoniovm/util/raw/ByteConverter.java:139-141 | an int is encoded in four bytes from `start` |
| ByteConverter.LongToBytesAt | src/main/java/com/antoniovm/util/raw/ByteConverter.java:123-125 | a long is encoded in eight bytes from `start` |
| ByteConverter.ShortToBytes | src/main/java/com/antoniovm/util/raw/ByteConverter.java:50-52 | a short is encoded in two bytes from index 0 |
| ByteConverter.IntToBytes | src/main/java/com/antoniovm/util/raw/ByteConverter.java:64-66 | an int is encoded in four bytes from index 0 |
| ByteConverter.LongToBytes | src/main/java/com/antoniovm/util/raw/ByteConverter.java:78-80 | a long is encoded in eight bytes from index 0 |
| ByteConverter.Decode | src/main/java/com/antoniovm/util/raw/ByteConverter.java:187-225 | toValue returns iff the bytes it reads exist and throws IndexOutOfBounds otherwise; its value is always an int widened to a long |
| ByteConverter.IntValue | src/main/java/com/antoniovm/util/raw/ByteConverter.java:170-172 | toIntValue returns exactly when the four-byte toValue does, and the narrowing loses nothing |
| ByteConverter.ToValue | src/main/java/com/antoniovm/util/raw/ByteConverter.java:187-225 | the method, with its two byte orders and its loop, returns exactly `Decode` of the array and only reads it |
| ByteConverter.AccumulateBytes | src/main/java/com/antoniovm/util/raw/ByteConverter.java:217-223 | the loop finishes the value `Decode` gives |
| ByteConverter.AccumulatedNext | src/main/java/com/antoniovm/util/raw/ByteConverter.java:219 | one loop iteration is one step of the accumulator |
| ByteConverter.ToIntValue | src/main/java/com/antoniovm/util/raw/ByteConverter.java:170-172 | the method returns exactly `IntValue` of the array |
| ByteConverter.Digits | src/main/java/com/antoniovm/util/raw/ByteConverter.java:97-107 | the range's bytes ordered by their weight in the value toBytesArray stored there |
| ByteConverter.ShiftLeft32Low | src/main/java/com/antoniovm/util/raw/ByteConverter.java:215 | `x << d` on an int (`ShiftLeft32`) is congruent modulo 2^32 to x * 2^(d mod 32), and equal to it when that fits an int |
| ByteConverter.AddShiftedExact | src/main/java/com/antoniovm/util/raw/ByteConverter.java:219 | `acc += b << d` (`AddShifted`) equals acc + b * 2^(d mod 32) whenever the shifted value and the sum fit an int |
| ByteConverter.AccumulatedFirst | src/main/java/com/antoniovm/util/raw/ByteConverter.java:202-215 | for widths up to 4 the sign-carrying byte enters at its weight without wrapping |
| ByteConverter.AccumulatedStep | src/main/java/com/antoniovm/util/raw/ByteConverter.java:217-221 | each loop iteration adds the next byte unsigned at its weight |
| ByteConverter.AccumulatedValue | src/main/java/com/antoniovm/util/raw/ByteConverter.java:199-221 | after t iterations the accumulator is the signed top byte at its weight plus the bytes read so far, with no wrap-around for widths up to 4 |
| ByteConverter.DecodeSigned | src/main/java/com/antoniovm/util/raw/ByteConverter.java:187-225 | for widths 1 to 4 and a range inside the array, toValue returns the two's-complement value of the range read in the order toBytesArray writes, with the sign from the most significant byte |
| ByteConverter.BytesOfValue | src/main/java/com/antoniovm/util/raw/ByteConverter.java:35-38 | the getByteAt bytes of a value that fits `width` bytes have that value in two's complement |
| ByteConverter.RoundTrip | src/main/java/com/antoniovm/util/raw/ByteConverter.java:96-225 | for widths 1 to 4 and a value that fits, toValue after toBytesArray, with the same start and flag, gives the value back |
| ByteConverter.IntRoundTrip | src/main/java/com/antoniovm/util/raw/ByteConverter.java:139-172 | toIntValue after toBytesArray of an int, with the same start and flag, gives the int back |
| ByteConverter.ShortRoundTrip | src/main/java/com/antoniovm/util/raw/ByteConverter.java:155-157 | toValue of two bytes after toBytesArray of a short gives the short back |
| ByteConverter.DecodeReadsOnlySlice | src/main/java/com/antoniovm/util/raw/ByteConverter.java:187-225 | toValue reads nothing outside `bytes[index .. index + bytesPerValue)`: arrays that agree there decode alike |
| ModMath.IncreaseModSigned | src/main/java/com/antoniovm/util/Math.java:46-49 | increaseMod throws ArithmeticException exactly when modValue is 0 |
| ModMath.IncreaseModBy | src/main/java/com/antoniovm/util/Math.java:33-35 | the three-argument form sets positiveMod |
| ModMath.IncreaseMod | src/main/java/com/antoniovm/util/Math.java:58-60 | increaseMod(v, m) is a step of 1 with positiveMod set |
| ModMath.DecreaseMod | src/main/java/com/antoniovm/util/Math.java:69-71 | decreaseMod(v, m) is a step of -1 with positiveMod set |
| ModMath.IncreaseModShift | src/main/java/com/antoniovm/util/Math.java:46-49 | without overflow the result is Java's `(v + inc) % m`, plus m exactly when positiveMod and inc < 0 |
| ModMath.IncreaseModNonNegative | src/main/java/com/antoniovm/util/Math.java:46-48 | for v >= 0, inc >= 0 and m > 0 the result is the mathematical `(v + inc) mod m` and lies in [0, m) |
| ModMath.IncreaseModCycles | src/main/java/com/antoniovm/util/Math.java:58-60 | for 0 <= v < m, increaseMod(v, m) is v + 1, or 0 when v == m - 1 |
| ModMath.DecreaseModFromZero | src/main/java/com/antoniovm/util/Math.java:69-71 | decreaseMod(0, m) == m - 1 for m >= 2 |
| ModMath.DecreaseModNotReduced | src/main/java/com/antoniovm/util/Math.java:47-48 | for 1 <= v < m, decreaseMod(v, m) is v - 1 + m, which is at least m |
| ModMath.IncreaseModPlainRemainder | src/main/java/com/antoniovm/util/Math.java:47-48 | with positiveMod off the result is Java's remainder, negative exactly when v + inc is negative and not a multiple of m |

## Left out

- Listener registration (`addDataListener`, `removeDataListener`) and the `DataListener` callbacks. Notifications are a ghost log, so what a listener does from inside a callback is not modelled.
- Aliasing:
  - The class methods require the caller's array to differ from the queue's own storage. For the static `push`, `src` must differ from `dst`.
  - An array shared through `copy = false` is owned by the queue, and writes to it from outside are not modelled.
- Java `int` overflow in index arithmetic (`srcTo - srcFrom`, `start + valueLength`, `head + n`, `dstSize + n`). Indices and sizes are unbounded integers, and they wrap only where the arithmetic is the point: increaseMod, and toValue's accumulator.
- `BlockingQueue` is left out because it is concurrency: a semaphore and synchronized methods.
- `TimeUtil` and `Measurable` are left out because they read the wall clock.
- `ByteConverter.toDoublesArray` is left out because it is floating-point division.
- ByteConverter.DecodeSigned: stated for widths 1 to 4 only. Wider reads go through the 32-bit accumulator with masked shift distances and do not give the long value. `Decode` models them as written.
- ByteConverter.RoundTrip: widths 1 to 4, and values that fit them, only, for the same reason. There is no long round trip.
- ModMath.DecreaseModNotReduced: it assumes that `v - 1 + m` does not overflow an int.
- RingQueueModel.AddAppends: it covers only an exact split, because insert's second copy length `srcTo - lastData` is wrong otherwise. `AddOverwritesOldestByte` shows the other case.
- RingQueueModel.PushOverwritesOldest: it covers `srcFrom == 0` only, for the same reason. `InsertSecondChunkTooLong` shows the other case.
- RingQueueModel.PeekCopiesOldest: it covers offset 0, or a read that does not wrap, only, because the second part lands at `dst[lastData]`. `PeekWrappedAtOffsetMisplaces` shows the other case.
- CompactingQueueModel.PushKeepsNewest: it assumes the capacity equals the array length. After setRawData the capacity is `size`, and then the static push still works over the whole array.
