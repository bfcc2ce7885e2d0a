/** com.antoniovm.util.raw.Queue: a flat byte queue over rawData[head .. tail). A push
    first compacts the live bytes to the front of the array and then appends with the
    shared static push; a pop copies from the front and advances `head`. */
module CompactingQueueModel {
  import opened Java
  import FlatPush

  /** The fields of the queue as values. */
  datatype Flat = Flat(data: seq<Int8>, head: int, tail: int, capacity: int)

  /** getSize(). */
  function Size(q: Flat): (r: int)
    ensures Inv(q) ==> r == |Contents(q)|
  {
    q.tail - q.head
  }

  /** The invariant every operation keeps once the capacity fits the array. */
  ghost predicate Inv(q: Flat)
  {
    0 <= q.head <= q.tail <= q.capacity <= |q.data|
  }

  /** The queued bytes, oldest first. */
  ghost function Contents(q: Flat): (c: seq<Int8>)
    requires Inv(q)
  {
    q.data[q.head..q.tail]
  }

  /** setRawData(data, size, copy) on values: `copy` only decides whether the new array
      is shared, so it does not appear here. */
  function SetRawData(q: Flat, data: seq<Int8>, size: int): (r: Result<Flat>)
    ensures r.Throw? <==> size > |data|
    ensures r.Throw? ==> r.exception == IndexOutOfBounds
  {
    if size > |data| then Throw(IndexOutOfBounds)
    else Ok(q.(data := data, capacity := size, tail := size))
  }

  /** The state Queue(data, size, copy) creates: setRawData on a fresh object. */
  function Initial(data: seq<Int8>, size: int): (r: Result<Flat>)
    ensures r.Throw? <==> size > |data|
  {
    SetRawData(Flat([], 0, 0, 0), data, size)
  }

  /** setRawData keeps `head` and sets the capacity to `size`, not to the array length;
      the queue then holds data[head .. size). A constructed queue holds data[0 .. size). */
  lemma SetRawDataContents(q: Flat, data: seq<Int8>, size: int)
    requires 0 <= q.head <= size <= |data|
    ensures var r := SetRawData(q, data, size);
      r.Ok? && Inv(r.value) && r.value.capacity == size && r.value.head == q.head &&
      Contents(r.value) == data[q.head..size]
    ensures var r := Initial(data, size);
      r.Ok? && Inv(r.value) && r.value.capacity == size && Contents(r.value) == data[..size]
  {
  }

  /** setRawData also accepts a size below the old `head`, a negative size included, and
      then breaks the invariant: getSize() turns negative, and once `head` is positive
      the next compaction throws, because its copy has a negative length. */
  lemma SetRawDataInconsistent(q: Flat, data: seq<Int8>, size: int)
    requires size <= |data| && (size < 0 || q.head > size || q.head < 0)
    ensures var r := SetRawData(q, data, size);
      r.Ok? && !Inv(r.value) && (q.head > size ==> Size(r.value) < 0)
    ensures var r := SetRawData(q, data, size);
      q.head > 0 && q.head > size ==> MoveToInitialPosition(r.value).Throw?
  {
  }

  /** moveToInitialPosition(): shifts rawData[head .. tail) to the front. */
  function MoveToInitialPosition(q: Flat): (r: Result<Flat>)
    ensures r.Ok? ==> |r.value.data| == |q.data| && r.value.capacity == q.capacity
  {
    if q.head > 0 then
      var size := Size(q);
      match Copy(q.data, q.head, q.data, 0, size)
      case Throw(e) => Throw(e)
      case Ok(d) => Ok(q.(data := d, tail := size, head := 0))
    else
      Ok(q)
  }

  /** Compaction never fails on a consistent queue and keeps the contents and the size,
      with `head` at 0. */
  lemma MoveToInitialPositionKeepsContents(q: Flat)
    requires Inv(q)
    ensures var r := MoveToInitialPosition(q);
      r.Ok? && Inv(r.value) && r.value.head == 0 && Size(r.value) == Size(q) &&
      Contents(r.value) == Contents(q)
  {
    if q.head > 0 {
      var d := Copy(q.data, q.head, q.data, 0, Size(q)).value;
      assert d[..Size(q)] == q.data[q.head..q.tail];
    }
  }

  /** The queue after the instance push, and what it returned or threw. */
  datatype Pushed = Pushed(q: Flat, result: Result<int>)

  /** push(src, srcFrom, srcTo): compaction, the static push into rawData with the
      current size, then `tail` grows by the slice length or saturates at the capacity. */
  function Push(q: Flat, src: seq<Int8>, srcFrom: int, srcTo: int): (r: Pushed)
    ensures |r.q.data| == |q.data| && r.q.capacity == q.capacity
  {
    match MoveToInitialPosition(q)
    case Throw(e) => Pushed(q, Throw(e))
    case Ok(m) =>
      var p := FlatPush.Push(src, srcFrom, srcTo, m.data, Size(m));
      var m := m.(data := p.dst);
      if p.result.Throw? then
        Pushed(m, p.result)
      else
        var totalNewBytes := srcTo - srcFrom;
        Pushed(m.(tail := if totalNewBytes + Size(m) > m.capacity then m.capacity else m.tail + totalNewBytes), p.result)
  }

  /** With the capacity equal to the array length, a push of a slice inside `src`
      leaves the newest `capacity` bytes of the old contents followed by the slice,
      sets the size to the smaller of the capacity and old size plus slice length, and
      returns `rawData.length - n`. */
  lemma PushKeepsNewest(q: Flat, src: seq<Int8>, srcFrom: int, srcTo: int)
    requires Inv(q) && q.capacity == |q.data|
    requires 0 <= srcFrom < srcTo <= |src|
    ensures var r := Push(q, src, srcFrom, srcTo);
      r.result == Ok(|q.data| - (srcTo - srcFrom)) && Inv(r.q) && r.q.head == 0 &&
      Size(r.q) == Min(q.capacity, Size(q) + (srcTo - srcFrom)) &&
      Contents(r.q) == FlatPush.Last(Contents(q) + src[srcFrom..srcTo], q.capacity)
  {
    MoveToInitialPositionKeepsContents(q);
    var m := MoveToInitialPosition(q).value;
    var p := FlatPush.Push(src, srcFrom, srcTo, m.data, Size(m));
    var n := srcTo - srcFrom;
    var t := if n + Size(m) > m.capacity then m.capacity else m.tail + n;
    CompactedPush(m, src, srcFrom, srcTo, p, t);
    assert Push(q, src, srcFrom, srcTo) == Pushed(m.(data := p.dst, tail := t), p.result);
  }

  /** PushKeepsNewest once the queue is compacted, for the static push's outcome `p`
      and the new `tail`. */
  lemma CompactedPush(m: Flat, src: seq<Int8>, srcFrom: int, srcTo: int, p: FlatPush.Pushed, t: int)
    requires Inv(m) && m.head == 0 && m.capacity == |m.data|
    requires 0 <= srcFrom < srcTo <= |src|
    requires p == FlatPush.Push(src, srcFrom, srcTo, m.data, Size(m))
    requires t == if (srcTo - srcFrom) + Size(m) > m.capacity then m.capacity else m.tail + (srcTo - srcFrom)
    ensures p.result == Ok(|m.data| - (srcTo - srcFrom))
    ensures Inv(m.(data := p.dst, tail := t))
    ensures Size(m.(data := p.dst, tail := t)) == Min(m.capacity, Size(m) + (srcTo - srcFrom))
    ensures Contents(m.(data := p.dst, tail := t)) == FlatPush.Last(Contents(m) + src[srcFrom..srcTo], m.capacity)
  {
    FlatPush.PushKeepsNewest(src, srcFrom, srcTo, m.data, Size(m));
    var joined := m.data[..Size(m)] + src[srcFrom..srcTo];
    assert m.data[..Size(m)] == Contents(m);
    var r := m.(data := p.dst, tail := t);
    if |joined| >= |m.data| {
      assert Contents(r) == p.dst;
    } else {
      assert Contents(r) == (joined + m.data[|joined|..])[..|joined|];
    }
  }

  /** An empty source range throws IllegalArgumentException after compacting: the
      contents are unchanged and `head` is 0. */
  lemma PushEmptyRangeThrows(q: Flat, src: seq<Int8>, srcFrom: int, srcTo: int)
    requires Inv(q) && srcTo - srcFrom < 1
    ensures var r := Push(q, src, srcFrom, srcTo);
      r.result == Throw(IllegalArgument) && Inv(r.q) && r.q.head == 0 && Contents(r.q) == Contents(q)
  {
    MoveToInitialPositionKeepsContents(q);
  }

  /** Push keeps the invariant whatever its arguments and outcome. */
  lemma PushKeepsInv(q: Flat, src: seq<Int8>, srcFrom: int, srcTo: int)
    requires Inv(q)
    ensures Inv(Push(q, src, srcFrom, srcTo).q)
  {
    MoveToInitialPositionKeepsContents(q);
  }

  /** The queue and the caller's array after pop(dst), and what it returned or threw. */
  datatype Popped = Popped(q: Flat, dst: seq<Int8>, result: Result<int>)

  /** pop(dst): an empty queue is cleared and yields 0; otherwise the static push copies
      the first min(size, dst.length) bytes into `dst` and `head` advances. */
  function Pop(q: Flat, dst: seq<Int8>): (r: Popped)
    ensures |r.dst| == |dst|
    ensures Size(q) < 1 ==> r == Popped(q.(head := 0, tail := 0), dst, Ok(0))
  {
    var size := Size(q);
    if size < 1 then
      Popped(q.(head := 0, tail := 0), dst, Ok(0))
    else
      var dataAmount := Min(size, |dst|);
      var p := FlatPush.Push(q.data, q.head, q.head + dataAmount, dst, 0);
      if p.result.Throw? then Popped(q, p.dst, Throw(p.result.exception))
      else Popped(q.(head := q.head + dataAmount), p.dst, Ok(dataAmount))
  }

  /** A pop from a non-empty queue into a non-empty array returns k = min(size,
      dst.length), fills dst[0 .. k) with the k oldest bytes, leaves the rest of `dst`
      alone, advances `head` by k and removes exactly those bytes. */
  lemma PopTakesOldest(q: Flat, dst: seq<Int8>)
    requires Inv(q) && Size(q) >= 1 && |dst| >= 1
    ensures var r := Pop(q, dst); var k := Min(Size(q), |dst|);
      r.result == Ok(k) && r.dst[..k] == Contents(q)[..k] && r.dst[k..] == dst[k..] &&
      r.q.head == q.head + k && Inv(r.q) && Contents(r.q) == Contents(q)[k..]
  {
    var k := Min(Size(q), |dst|);
    FlatPush.PushKeepsNewest(q.data, q.head, q.head + k, dst, 0);
    var p := FlatPush.Push(q.data, q.head, q.head + k, dst, 0);
    assert p.dst == q.data[q.head..q.head + k] + dst[k..];
  }

  /** A pop from a non-empty queue into an empty array throws IllegalArgumentException
      from the static push: the requested range is empty. Nothing changes. */
  lemma PopIntoEmptyArrayThrows(q: Flat, dst: seq<Int8>)
    requires Size(q) >= 1 && |dst| == 0
    ensures Pop(q, dst) == Popped(q, dst, Throw(IllegalArgument))
  {
  }

  /** Pop keeps the invariant whatever its arguments and outcome. */
  lemma PopKeepsInv(q: Flat, dst: seq<Int8>)
    requires Inv(q)
    ensures Inv(Pop(q, dst).q)
  {
  }
}

/** The queue class, proved against CompactingQueueModel. */
module CompactingQueue {
  import opened Java
  import FlatPush
  import opened CompactingQueueModel

  class Queue {
    var rawData: array<Int8>
    var head: int
    var tail: int
    var capacity: int

    ghost function State(): Flat
      reads this, rawData
    {
      Flat(rawData[..], head, tail, capacity)
    }

    /** Queue(data, size, copy): setRawData on a fresh object, so it throws when `size`
        exceeds the array length. */
    static method New(data: array<Int8>, size: int, copy: bool) returns (r: Result<Queue>)
      ensures r.Throw? <==> size > data.Length
      ensures r.Throw? ==> r.exception == IndexOutOfBounds
      ensures r.Ok? ==> fresh(r.value) && r.value.State() == Initial(data[..], size).value
      ensures r.Ok? ==> if copy then fresh(r.value.rawData) else r.value.rawData == data
    {
      if size > data.Length {
        return Throw(IndexOutOfBounds);
      }
      var q := new Queue.Init(data, size, copy);
      return Ok(q);
    }

    constructor Init(data: array<Int8>, size: int, copy: bool)
      requires size <= data.Length
      ensures State() == Initial(data[..], size).value
      ensures if copy then fresh(rawData) else rawData == data
    {
      head := 0;
      capacity := size;
      tail := size;
      if copy {
        var a := new Int8[data.Length];
        forall i | 0 <= i < data.Length {
          a[i] := data[i];
        }
        rawData := a;
      } else {
        rawData := data;
      }
    }

    /** Queue(data, size): the queue over `data` itself. */
    static method WithSize(data: array<Int8>, size: int) returns (r: Result<Queue>)
      ensures r.Throw? <==> size > data.Length
      ensures r.Throw? ==> r.exception == IndexOutOfBounds
      ensures r.Ok? ==> fresh(r.value) && r.value.rawData == data && r.value.State() == Initial(data[..], size).value
    {
      r := New(data, size, false);
    }

    /** Queue(data): the whole array is queued. */
    static method FromArray(data: array<Int8>) returns (q: Queue)
      ensures fresh(q) && q.rawData == data && q.State() == Initial(data[..], data.Length).value
    {
      q := new Queue.Init(data, data.Length, false);
    }

    /** Queue(capacity): a zero-filled array, queued in full; a negative capacity fails
        when the array is created. */
    static method WithCapacity(capacity: int) returns (r: Result<Queue>)
      ensures r.Throw? <==> capacity < 0
      ensures r.Throw? ==> r.exception == NegativeArraySize
      ensures r.Ok? ==> fresh(r.value) && fresh(r.value.rawData)
      ensures r.Ok? ==> r.value.State() == Initial(seq(capacity, _ => 0), capacity).value
    {
      if capacity < 0 {
        return Throw(NegativeArraySize);
      }
      var data := new Int8[capacity](_ => 0);
      var q := FromArray(data);
      return Ok(q);
    }

    /** setRawData(data, size, copy). */
    method SetRawData(data: array<Int8>, size: int, copy: bool) returns (r: Result<()>)
      modifies this
      ensures r.Throw? <==> size > data.Length
      ensures r.Throw? ==> r.exception == IndexOutOfBounds && State() == old(State()) && rawData == old(rawData)
      ensures r.Ok? ==> State() == CompactingQueueModel.SetRawData(old(State()), data[..], size).value
      ensures r.Ok? ==> if copy then fresh(rawData) else rawData == data
    {
      if size > data.Length {
        return Throw(IndexOutOfBounds);
      }
      capacity := size;
      tail := size;
      if copy {
        var a := new Int8[data.Length];
        forall i | 0 <= i < data.Length {
          a[i] := data[i];
        }
        rawData := a;
      } else {
        rawData := data;
      }
      r := Ok(());
    }

    function GetRawData(): (a: array<Int8>)
      reads this
      ensures a == rawData
    {
      rawData
    }

    /** getSize(): the number of queued bytes when the invariant holds. */
    function GetSize(): (s: int)
      reads this, rawData
      ensures Inv(State()) ==> s == |Contents(State())|
    {
      tail - head
    }

    function GetCapacity(): (c: int)
      reads this
      ensures c == capacity
    {
      capacity
    }

    /** setCapacity(capacity): unchecked, so the invariant survives it only when the
        new capacity lies between `tail` and the array length. */
    method SetCapacity(capacity: int)
      modifies this
      ensures State() == old(State()).(capacity := capacity)
    {
      this.capacity := capacity;
    }

    method MoveToInitialPosition() returns (r: Result<()>)
      modifies this, rawData
      ensures rawData == old(rawData)
      ensures var m := CompactingQueueModel.MoveToInitialPosition(old(State()));
        (r.Ok? <==> m.Ok?) && (m.Ok? ==> State() == m.value) &&
        (m.Throw? ==> r.exception == m.exception && State() == old(State()))
    {
      if head > 0 {
        var size := GetSize();
        var c := ArrayCopy(rawData, head, rawData, 0, size);
        if c.Throw? {
          return Throw(c.exception);
        }
        tail := size;
        head := 0;
      }
      r := Ok(());
    }

    /** push(src, srcFrom, srcTo); `src` is not the queue's own array. */
    method Push(src: array<Int8>, srcFrom: int, srcTo: int) returns (r: Result<int>)
      requires src != rawData
      modifies this, rawData
      ensures rawData == old(rawData)
      ensures Pushed(State(), r) == CompactingQueueModel.Push(old(State()), old(src[..]), srcFrom, srcTo)
    {
      var m := MoveToInitialPosition();
      if m.Throw? {
        return Throw(m.exception);
      }
      r := FlatPush.PushInto(src, srcFrom, srcTo, rawData, GetSize());
      if r.Throw? {
        return;
      }
      var totalNewBytes := srcTo - srcFrom;
      if totalNewBytes + GetSize() > GetCapacity() {
        tail := GetCapacity();
      } else {
        tail := tail + totalNewBytes;
      }
    }

    /** push(src): the whole of `src`. */
    method PushAll(src: array<Int8>) returns (r: Result<int>)
      requires src != rawData
      modifies this, rawData
      ensures rawData == old(rawData)
      ensures Pushed(State(), r) == CompactingQueueModel.Push(old(State()), old(src[..]), 0, src.Length)
    {
      r := Push(src, 0, src.Length);
    }

    /** pop(dst); `dst` is not the queue's own array. */
    method Pop(dst: array<Int8>) returns (r: Result<int>)
      requires dst != rawData
      modifies this, dst
      ensures rawData == old(rawData)
      ensures Popped(State(), dst[..], r) == CompactingQueueModel.Pop(old(State()), old(dst[..]))
    {
      var size := GetSize();
      if size < 1 {
        Clear();
        return Ok(0);
      }
      var dataAmount := Min(GetSize(), dst.Length);
      var p := FlatPush.PushInto(rawData, head, head + dataAmount, dst, 0);
      if p.Throw? {
        return Throw(p.exception);
      }
      head := head + dataAmount;
      return Ok(dataAmount);
    }

    method Clear()
      modifies this
      ensures rawData == old(rawData)
      ensures State() == old(State()).(head := 0, tail := 0)
    {
      head := 0;
      tail := 0;
    }
  }
}
