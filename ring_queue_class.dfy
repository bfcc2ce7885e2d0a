/** The circular queue class, proved against RingQueueModel: every method leaves the
    fields equal to what the model function for that operation computes from the
    fields before the call. */
module RingQueue {
  import opened Java
  import FlatPush
  import opened RingQueueModel

  /** The three outcomes of peek's wrapped read, by which copy throws. */
  lemma PeekWrapCases(q: Ring, dst: seq<Int8>, count: int, offset: int, k: int, lastData: int, endIndex: int,
                      d1: seq<Int8>, d2: seq<Int8>)
    requires !IsEmpty(q) && 0 <= count && 0 <= offset && count + offset <= |dst| && |q.data| >= 1
    requires k == Min(count, q.size) && lastData == |q.data| - q.head && endIndex == Rem(q.head + k, |q.data|)
    requires q.head >= endIndex
    ensures Copy(q.data, q.head, dst, offset, lastData).Throw? ==>
      Peek(q, dst, count, offset) == Peeked(dst, Throw(IndexOutOfBounds))
    ensures Copy(q.data, q.head, dst, offset, lastData) == Ok(d1) && Copy(q.data, 0, d1, lastData, endIndex).Throw? ==>
      Peek(q, dst, count, offset) == Peeked(d1, Throw(IndexOutOfBounds))
    ensures Copy(q.data, q.head, dst, offset, lastData) == Ok(d1) && Copy(q.data, 0, d1, lastData, endIndex) == Ok(d2) ==>
      Peek(q, dst, count, offset) == Peeked(d2, Ok(k))
  {
  }

  /** The two outcomes of peek's direct read. */
  lemma PeekDirectCases(q: Ring, dst: seq<Int8>, count: int, offset: int, k: int, endIndex: int, d: seq<Int8>)
    requires !IsEmpty(q) && 0 <= count && 0 <= offset && count + offset <= |dst| && |q.data| >= 1
    requires k == Min(count, q.size) && endIndex == Rem(q.head + k, |q.data|)
    requires q.head < endIndex
    ensures Copy(q.data, q.head, dst, offset, k).Throw? ==>
      Peek(q, dst, count, offset) == Peeked(dst, Throw(IndexOutOfBounds))
    ensures Copy(q.data, q.head, dst, offset, k) == Ok(d) ==> Peek(q, dst, count, offset) == Peeked(d, Ok(k))
  {
  }

  class Queue {
    var rawRingData: array<Int8>
    var head: int
    var tail: int
    var capacity: int
    var initialSize: int
    var size: int
    /** What the registered listeners have been told, in order. */
    ghost var events: seq<Event>

    /** `capacity` always mirrors the length of the storage array. */
    ghost predicate Valid()
      reads this
    {
      capacity == rawRingData.Length
    }

    ghost function State(): Ring
      reads this, rawRingData
    {
      Ring(rawRingData[..], head, tail, initialSize, size, events)
    }

    /** Queue(data, size, copy): setRawData on a fresh object, so it throws when `size`
        exceeds the array length. */
    static method New(data: array<Int8>, size: int, copy: bool) returns (r: Result<Queue>)
      ensures r.Throw? <==> size > data.Length
      ensures r.Throw? ==> r.exception == IndexOutOfBounds
      ensures r.Ok? ==> fresh(r.value) && r.value.Valid() && r.value.State() == Initial(data[..], size).value
      ensures r.Ok? ==> if copy then fresh(r.value.rawRingData) else r.value.rawRingData == data
    {
      if size > data.Length {
        return Throw(IndexOutOfBounds);
      }
      var q := new Queue.Init(data, size, copy);
      return Ok(q);
    }

    constructor Init(data: array<Int8>, size: int, copy: bool)
      requires size <= data.Length
      ensures Valid() && State() == Initial(data[..], size).value
      ensures if copy then fresh(rawRingData) else rawRingData == data
    {
      head := 0;
      capacity := data.Length;
      initialSize := size;
      this.size := size;
      tail := size;
      events := [];
      if copy {
        var a := new Int8[data.Length];
        forall i | 0 <= i < data.Length {
          a[i] := data[i];
        }
        rawRingData := a;
      } else {
        rawRingData := data;
      }
    }

    /** Queue(data, size): the queue over `data` itself. */
    static method WithSize(data: array<Int8>, size: int) returns (r: Result<Queue>)
      ensures r.Throw? <==> size > data.Length
      ensures r.Throw? ==> r.exception == IndexOutOfBounds
      ensures r.Ok? ==> fresh(r.value) && r.value.rawRingData == data && r.value.Valid()
      ensures r.Ok? ==> r.value.State() == Initial(data[..], size).value
    {
      r := New(data, size, false);
    }

    /** Queue(data): the array, with nothing queued. */
    static method FromArray(data: array<Int8>) returns (q: Queue)
      ensures fresh(q) && q.rawRingData == data && q.Valid() && q.State() == Initial(data[..], 0).value
    {
      q := new Queue.Init(data, 0, false);
    }

    /** Queue(capacity): a zero-filled array with nothing queued; a negative capacity
        fails when the array is created. */
    static method WithCapacity(capacity: int) returns (r: Result<Queue>)
      ensures r.Throw? <==> capacity < 0
      ensures r.Throw? ==> r.exception == NegativeArraySize
      ensures r.Ok? ==> fresh(r.value) && fresh(r.value.rawRingData) && r.value.Valid()
      ensures r.Ok? ==> r.value.State() == Initial(seq(capacity, _ => 0), 0).value
    {
      if capacity < 0 {
        return Throw(NegativeArraySize);
      }
      var data := new Int8[capacity](_ => 0);
      var q := FromArray(data);
      return Ok(q);
    }

    /** setRawData(data, size, copy). */
    method SetRawData(data: array<Int8>, size: int, copy: bool) returns (r: Result<()>)
      modifies this
      ensures r.Throw? <==> size > data.Length
      ensures r.Throw? ==> r.exception == IndexOutOfBounds && State() == old(State()) && rawRingData == old(rawRingData)
      ensures r.Ok? ==> Valid() && State() == RingQueueModel.SetRawData(old(State()), data[..], size).value
      ensures r.Ok? ==> if copy then fresh(rawRingData) else rawRingData == data
      ensures capacity == old(capacity) || r.Ok?
    {
      if size > data.Length {
        return Throw(IndexOutOfBounds);
      }
      capacity := data.Length;
      initialSize := size;
      this.size := size;
      tail := size;
      if copy {
        var a := new Int8[data.Length];
        forall i | 0 <= i < data.Length {
          a[i] := data[i];
        }
        rawRingData := a;
      } else {
        rawRingData := data;
      }
      r := Ok(());
    }

    function GetSize(): (s: int)
      reads this, rawRingData
      ensures 0 <= head < rawRingData.Length && 0 <= size <= rawRingData.Length ==> s == |Contents(State())|
    {
      size
    }

    function GetCapacity(): (c: int)
      reads this
      ensures Valid() ==> c == rawRingData.Length
    {
      capacity
    }

    /** isEmpty() */
    predicate IsEmpty(): (b: bool)
      reads this, rawRingData
      ensures b == RingQueueModel.IsEmpty(State())
    {
      size == 0
    }

    /** isFull(), which compares with the capacity field. */
    predicate IsFull(): (b: bool)
      reads this, rawRingData
      ensures Valid() ==> b == RingQueueModel.IsFull(State())
    {
      size == capacity
    }

    /** fireOnFull(): every listener hears onFull once. */
    method FireOnFull()
      modifies this
      ensures State() == RingQueueModel.FireOnFull(old(State()))
      ensures rawRingData == old(rawRingData) && capacity == old(capacity)
    {
      events := events + [Full(head, tail, size)];
    }

    /** fireOnEmpty(): every listener hears onEmpty once. */
    method FireOnEmpty()
      modifies this
      ensures State() == RingQueueModel.FireOnEmpty(old(State()))
      ensures rawRingData == old(rawRingData) && capacity == old(capacity)
    {
      events := events + [Empty(head, tail, size)];
    }

    method Clear()
      modifies this
      ensures State() == RingQueueModel.Clear(old(State()))
      ensures rawRingData == old(rawRingData) && capacity == old(capacity)
    {
      head := 0;
      tail := 0;
      size := 0;
    }

    method Reset()
      modifies this
      ensures State() == RingQueueModel.Reset(old(State()))
      ensures rawRingData == old(rawRingData) && capacity == old(capacity)
    {
      size := initialSize;
      tail := size;
      head := 0;
    }

    /** insert(src, srcFrom, srcTo, overwriteOldData); `src` is not the queue's own
        array. */
    method Insert(src: array<Int8>, srcFrom: int, srcTo: int, overwriteOldData: bool) returns (r: Result<()>)
      requires Valid() && src != rawRingData
      modifies this, rawRingData
      ensures rawRingData == old(rawRingData) && Valid()
      ensures Inserted(State(), r) == RingQueueModel.Insert(old(State()), old(src[..]), srcFrom, srcTo, overwriteOldData)
    {
      var numberOfBytesToRead := srcTo - srcFrom;
      if numberOfBytesToRead < 1 {
        return Throw(IllegalArgument);
      }
      var wasFull := IsFull();
      if !overwriteOldData {
        if wasFull {
          return Ok(());
        }
        var freeSpace := capacity - size;
        numberOfBytesToRead := Min(freeSpace, numberOfBytesToRead);
      }
      if src.Length > capacity {
        r := InsertOverflow(src, srcFrom, srcTo, wasFull);
      } else {
        r := InsertRing(src, srcFrom, srcTo, numberOfBytesToRead, wasFull);
      }
    }

    /** The data-overflow branch of insert: the static push over the whole storage. */
    method InsertOverflow(src: array<Int8>, srcFrom: int, srcTo: int, wasFull: bool) returns (r: Result<()>)
      requires Valid() && src != rawRingData
      modifies this, rawRingData
      ensures rawRingData == old(rawRingData) && Valid()
      ensures Inserted(State(), r) == RingQueueModel.InsertOverflow(old(State()), old(src[..]), srcFrom, srcTo, wasFull)
    {
      var p := FlatPush.PushInto(src, srcFrom, srcTo, rawRingData, capacity);
      if p.Throw? {
        return Throw(p.exception);
      }
      head := 0;
      tail := 0;
      size := capacity;
      if !wasFull && IsFull() {
        FireOnFull();
      }
      r := Ok(());
    }

    /** The circular write of insert, with its split copy. */
    method InsertRing(src: array<Int8>, srcFrom: int, srcTo: int, n: int, wasFull: bool) returns (r: Result<()>)
      requires Valid() && src != rawRingData
      modifies this, rawRingData
      ensures rawRingData == old(rawRingData) && Valid()
      ensures Inserted(State(), r) == RingQueueModel.InsertRing(old(State()), old(src[..]), srcFrom, srcTo, n, wasFull)
    {
      var lastData := Min(capacity - tail, n);
      if lastData < n {
        r := InsertWrapping(src, srcFrom, srcTo, n, wasFull);
      } else {
        var freeSpace := capacity - size;
        r := InsertLast(src, src[..], srcFrom, lastData, n, freeSpace, wasFull);
      }
    }

    /** Insert's circular write when the bytes run past the end of the array: the first
        part fills [tail, capacity) and the rest is written from slot 0. */
    method InsertWrapping(src: array<Int8>, srcFrom: int, srcTo: int, n: int, wasFull: bool) returns (r: Result<()>)
      requires Valid() && src != rawRingData
      requires Min(capacity - tail, n) < n
      modifies this, rawRingData
      ensures rawRingData == old(rawRingData) && Valid()
      ensures Inserted(State(), r) == RingQueueModel.InsertRing(old(State()), old(src[..]), srcFrom, srcTo, n, wasFull)
    {
      ghost var q := State();
      ghost var s := src[..];
      var lastData := Min(capacity - tail, n);
      var freeSpace := capacity - size;
      ghost var c1 := Copy(s, srcFrom, q.data, q.tail, lastData);
      InsertWrapCases(q, s, srcFrom, srcTo, n, wasFull, lastData, freeSpace, if c1.Ok? then c1.value else q.data);
      var c := ArrayCopy(src, srcFrom, rawRingData, tail, lastData);
      if c.Throw? {
        return Throw(c.exception);
      }
      if capacity == 0 {
        return Throw(Arithmetic);
      }
      assert State() == q.(data := c1.value);
      r := InsertAfterWrap(src, s, srcFrom, srcTo, n, wasFull, lastData, freeSpace, q);
    }

    /** The rest of InsertWrapping once the first copy is done: `tail` moves to the
        start of the array, then the last copy. */
    method InsertAfterWrap(src: array<Int8>, ghost s: seq<Int8>, srcFrom: int, srcTo: int, n: int, wasFull: bool,
                           lastData: int, freeSpace: int, ghost q: Ring) returns (r: Result<()>)
      requires Valid() && src != rawRingData && s == src[..] && capacity >= 1
      requires lastData == Min(|q.data| - q.tail, n) && lastData < n && freeSpace == |q.data| - q.size
      requires Copy(s, srcFrom, q.data, q.tail, lastData) == Ok(rawRingData[..])
      requires State() == q.(data := rawRingData[..])
      modifies this, rawRingData
      ensures rawRingData == old(rawRingData) && Valid()
      ensures Inserted(State(), r) == RingQueueModel.InsertRing(q, s, srcFrom, srcTo, n, wasFull)
    {
      tail := Rem(tail + lastData, capacity);
      ghost var q1 := State();
      r := InsertLast(src, s, srcFrom + lastData, srcTo - lastData, n, freeSpace, wasFull);
      InsertWrapDone(q, s, srcFrom, srcTo, n, wasFull, lastData, freeSpace, q1, Inserted(State(), r));
    }

    /** The last copy of insert and the index updates after it. */
    method InsertLast(src: array<Int8>, ghost s: seq<Int8>, srcFrom: int, length: int, n: int, freeSpace: int, wasFull: bool)
      returns (r: Result<()>)
      requires Valid() && src != rawRingData && s == src[..]
      modifies this, rawRingData
      ensures rawRingData == old(rawRingData) && Valid()
      ensures Inserted(State(), r) == RingQueueModel.InsertLast(old(State()), s, srcFrom, length, n, freeSpace, wasFull)
    {
      var c := ArrayCopy(src, srcFrom, rawRingData, tail, length);
      if c.Throw? {
        return Throw(c.exception);
      }
      if capacity == 0 {
        return Throw(Arithmetic);
      }
      tail := Rem(tail + length, capacity);
      if freeSpace < n {
        var headOffset := n - freeSpace;
        head := Rem(head + headOffset, capacity);
      }
      size := Min(capacity, size + n);
      if !wasFull && IsFull() {
        FireOnFull();
      }
      r := Ok(());
    }

    /** push(src, srcFrom, srcTo): insert, overwriting the oldest bytes. */
    method Push(src: array<Int8>, srcFrom: int, srcTo: int) returns (r: Result<()>)
      requires Valid() && src != rawRingData
      modifies this, rawRingData
      ensures rawRingData == old(rawRingData) && Valid()
      ensures Inserted(State(), r) == RingQueueModel.Insert(old(State()), old(src[..]), srcFrom, srcTo, true)
    {
      r := Insert(src, srcFrom, srcTo, true);
    }

    /** push(src): the whole of `src`. */
    method PushAll(src: array<Int8>) returns (r: Result<()>)
      requires Valid() && src != rawRingData
      modifies this, rawRingData
      ensures rawRingData == old(rawRingData) && Valid()
      ensures Inserted(State(), r) == RingQueueModel.Insert(old(State()), old(src[..]), 0, src.Length, true)
    {
      r := Push(src, 0, src.Length);
    }

    /** add(src, srcFrom, srcTo): insert, keeping the old bytes. */
    method Add(src: array<Int8>, srcFrom: int, srcTo: int) returns (r: Result<()>)
      requires Valid() && src != rawRingData
      modifies this, rawRingData
      ensures rawRingData == old(rawRingData) && Valid()
      ensures Inserted(State(), r) == RingQueueModel.Insert(old(State()), old(src[..]), srcFrom, srcTo, false)
    {
      r := Insert(src, srcFrom, srcTo, false);
    }

    /** add(src): the whole of `src`. */
    method AddAll(src: array<Int8>) returns (r: Result<()>)
      requires Valid() && src != rawRingData
      modifies this, rawRingData
      ensures rawRingData == old(rawRingData) && Valid()
      ensures Inserted(State(), r) == RingQueueModel.Insert(old(State()), old(src[..]), 0, src.Length, false)
    {
      r := Add(src, 0, src.Length);
    }

    /** peek(dst, numberOfElements, dstOffset); `dst` is not the queue's own array. */
    method Peek(dst: array<Int8>, count: int, offset: int) returns (r: Result<int>)
      requires Valid() && dst != rawRingData
      modifies dst
      ensures State() == old(State())
      ensures Peeked(dst[..], r) == RingQueueModel.Peek(old(State()), old(dst[..]), count, offset)
    {
      if IsEmpty() {
        return Ok(0);
      }
      if count < 0 {
        return Throw(IndexOutOfBounds);
      }
      if offset < 0 {
        return Throw(IndexOutOfBounds);
      }
      if count + offset > dst.Length {
        return Throw(IndexOutOfBounds);
      }
      if capacity == 0 {
        return Throw(Arithmetic);
      }
      var numberOfElements := Min(count, size);
      var endIndex := Rem(head + numberOfElements, capacity);
      if head >= endIndex {
        r := PeekWrapped(dst, count, offset);
      } else {
        ghost var c1 := Copy(rawRingData[..], head, dst[..], offset, numberOfElements);
        PeekDirectCases(State(), dst[..], count, offset, numberOfElements, endIndex, if c1.Ok? then c1.value else dst[..]);
        var c := ArrayCopy(rawRingData, head, dst, offset, numberOfElements);
        if c.Throw? {
          return Throw(c.exception);
        }
        r := Ok(numberOfElements);
      }
    }

    /** The two copies of peek when the bytes asked for run past the end of the array:
        [head, capacity) first, then the rest from slot 0. */
    method PeekWrapped(dst: array<Int8>, count: int, offset: int) returns (r: Result<int>)
      requires Valid() && dst != rawRingData
      requires size != 0 && 0 <= count && 0 <= offset && count + offset <= dst.Length && capacity >= 1
      requires head >= Rem(head + Min(count, size), capacity)
      modifies dst
      ensures Peeked(dst[..], r) == RingQueueModel.Peek(old(State()), old(dst[..]), count, offset)
    {
      ghost var q := State();
      ghost var d0 := dst[..];
      assert !RingQueueModel.IsEmpty(q);
      var numberOfElements := Min(count, size);
      var lastData := capacity - head;
      var endIndex := Rem(head + numberOfElements, capacity);
      ghost var c1 := Copy(q.data, q.head, d0, offset, lastData);
      ghost var d1 := if c1.Ok? then c1.value else d0;
      ghost var c2 := Copy(q.data, 0, d1, lastData, endIndex);
      PeekWrapCases(q, d0, count, offset, numberOfElements, lastData, endIndex, d1, if c2.Ok? then c2.value else d1);
      var c := ArrayCopy(rawRingData, head, dst, offset, lastData);
      if c.Throw? {
        return Throw(c.exception);
      }
      assert rawRingData[..] == q.data && dst[..] == d1;
      c := ArrayCopy(rawRingData, 0, dst, lastData, endIndex);
      if c.Throw? {
        return Throw(c.exception);
      }
      r := Ok(numberOfElements);
    }

    /** peek(dst, numberOfElements): into dst from index 0. */
    method PeekCount(dst: array<Int8>, count: int) returns (r: Result<int>)
      requires Valid() && dst != rawRingData
      modifies dst
      ensures State() == old(State())
      ensures Peeked(dst[..], r) == RingQueueModel.Peek(old(State()), old(dst[..]), count, 0)
    {
      r := Peek(dst, count, 0);
    }

    /** peek(dst): as many bytes as dst holds. */
    method PeekAll(dst: array<Int8>) returns (r: Result<int>)
      requires Valid() && dst != rawRingData
      modifies dst
      ensures State() == old(State())
      ensures Peeked(dst[..], r) == RingQueueModel.Peek(old(State()), old(dst[..]), dst.Length, 0)
    {
      r := PeekCount(dst, dst.Length);
    }

    /** getRawData(data): peek(data), discarding the count. */
    method GetRawData(data: array<Int8>) returns (r: Result<()>)
      requires Valid() && data != rawRingData
      modifies data
      ensures State() == old(State())
      ensures var p := RingQueueModel.Peek(old(State()), old(data[..]), data.Length, 0);
        data[..] == p.dst && (r.Ok? <==> p.result.Ok?) && (r.Throw? ==> r.exception == p.result.exception)
    {
      var p := PeekAll(data);
      if p.Throw? {
        return Throw(p.exception);
      }
      r := Ok(());
    }

    /** pop(dst, numberOfElements, dstOffset); `dst` is not the queue's own array. */
    method Pop(dst: array<Int8>, count: int, offset: int) returns (r: Result<int>)
      requires Valid() && dst != rawRingData
      modifies this, dst
      ensures rawRingData == old(rawRingData) && Valid()
      ensures Popped(State(), dst[..], r) == RingQueueModel.Pop(old(State()), old(dst[..]), count, offset)
    {
      ghost var q := State();
      ghost var d0 := dst[..];
      var p := Peek(dst, count, offset);
      PopCases(q, d0, count, offset, Peeked(dst[..], p));
      if p.Throw? {
        return Throw(p.exception);
      }
      var numberOfElements := p.value;
      var wasEmpty := IsEmpty();
      size := size - numberOfElements;
      if capacity == 0 {
        return Throw(Arithmetic);
      }
      head := Rem(head + numberOfElements, capacity);
      assert State() == q.(size := q.size - numberOfElements, head := Rem(q.head + numberOfElements, |q.data|));
      if !wasEmpty && IsEmpty() {
        FireOnEmpty();
      }
      r := Ok(numberOfElements);
    }

    /** pop(dst, numberOfElements): into dst from index 0. */
    method PopCount(dst: array<Int8>, count: int) returns (r: Result<int>)
      requires Valid() && dst != rawRingData
      modifies this, dst
      ensures rawRingData == old(rawRingData) && Valid()
      ensures Popped(State(), dst[..], r) == RingQueueModel.Pop(old(State()), old(dst[..]), count, 0)
    {
      r := Pop(dst, count, 0);
    }

    /** pop(dst): as many bytes as dst holds. */
    method PopAll(dst: array<Int8>) returns (r: Result<int>)
      requires Valid() && dst != rawRingData
      modifies this, dst
      ensures rawRingData == old(rawRingData) && Valid()
      ensures Popped(State(), dst[..], r) == RingQueueModel.Pop(old(State()), old(dst[..]), dst.Length, 0)
    {
      r := PopCount(dst, dst.Length);
    }
  }
}
