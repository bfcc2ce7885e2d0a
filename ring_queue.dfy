/** com.loopinsoftware.util.raw.Queue: a fixed-capacity circular byte queue. The bytes
    live in rawRingData at positions head, head + 1, ... round the array; `tail` is
    where the next byte goes. `push` overwrites the oldest bytes when the queue is full,
    `add` keeps them and accepts only what fits, and registered listeners are told when
    an insertion fills the queue or a pop empties it. */
module RingQueueModel {
  import opened Java
  import opened Arith
  import FlatPush

  /** A notification sent to the registered listeners, with the indices they observe
      from inside the callback. */
  datatype Event =
    | Full(head: int, tail: int, size: int)    // DataListener.onFull()
    | Empty(head: int, tail: int, size: int)   // DataListener.onEmpty()

  /** The fields of the queue as values. The capacity field always equals |data|; the
      listener list is replaced by the log of the notifications it received. */
  datatype Ring = Ring(data: seq<Int8>, head: int, tail: int, initialSize: int, size: int, events: seq<Event>)

  /** isEmpty(): nothing is queued. */
  predicate IsEmpty(q: Ring): (b: bool)
    ensures Inv(q) ==> (b <==> Contents(q) == [])
  {
    q.size == 0
  }

  /** isFull(): the queued bytes fill the storage. */
  predicate IsFull(q: Ring): (b: bool)
    ensures b && 1 <= |q.data| ==> !IsEmpty(q)
  {
    q.size == |q.data|
  }

  /** The slot an index in [0, 2m) denotes in a ring of m slots: every index the queue
      reduces with `%` lies less than one turn past the end. */
  function Wrap(x: int, m: int): int
  {
    if x >= m then x - m else x
  }

  /** On such an index Java's remainder is that one-turn wrap. */
  lemma RemWraps(x: int, m: int)
    requires 1 <= m && 0 <= x < 2 * m
    ensures Rem(x, m) == Wrap(x, m)
  {
    if x >= m {
      DivModUnique(x, m, 1, x - m);
    } else {
      DivModUnique(x, m, 0, x);
    }
  }

  /** The ring invariant: the indices lie inside the array and `tail` denotes the slot
      `size` positions after `head`. (`tail` may equal the capacity, which denotes slot
      0, after setRawData on a full array.) */
  ghost predicate Inv(q: Ring)
  {
    var capacity := |q.data|;
    1 <= capacity && 0 <= q.size <= capacity && 0 <= q.initialSize <= capacity &&
    0 <= q.head < capacity && 0 <= q.tail <= capacity &&
    Wrap(q.tail, capacity) == Wrap(q.head + q.size, capacity)
  }

  /** The `size` bytes from `head` on, round the array: the queued bytes, oldest first.
      (Byte i sits in slot Wrap(head + i, capacity), written out because the verifier
      does not unfold calls inside the comprehension.) */
  ghost function Contents(q: Ring): (c: seq<Int8>)
    requires 0 <= q.head < |q.data| && 0 <= q.size <= |q.data|
    ensures |c| == q.size
  {
    seq(q.size, i =>
      var x := q.head + i;
      if 0 <= i < q.size then q.data[if x >= |q.data| then x - |q.data| else x] else 0)
  }

  /** A full queue holds `capacity` bytes. */
  lemma EmptyAndFull(q: Ring)
    requires Inv(q)
    ensures IsFull(q) <==> |Contents(q)| == |q.data|
  {
  }

  /** fireOnFull() and fireOnEmpty(): one notification, carrying the current indices. */
  function FireOnFull(q: Ring): (r: Ring)
    ensures r.events == q.events + [Full(q.head, q.tail, q.size)]
    ensures r.(events := q.events) == q
  {
    q.(events := q.events + [Full(q.head, q.tail, q.size)])
  }

  function FireOnEmpty(q: Ring): (r: Ring)
    ensures r.events == q.events + [Empty(q.head, q.tail, q.size)]
    ensures r.(events := q.events) == q
  {
    q.(events := q.events + [Empty(q.head, q.tail, q.size)])
  }

  // ---------------------------------------------------------------------------
  // setRawData, construction, clear and reset

  /** setRawData(data, size, copy) on values: the capacity becomes data.length, size,
      initialSize and tail become `size`, and `head` keeps its old value. */
  function SetRawData(q: Ring, data: seq<Int8>, size: int): (r: Result<Ring>)
    ensures r.Throw? <==> size > |data|
    ensures r.Throw? ==> r.exception == IndexOutOfBounds
  {
    if size > |data| then Throw(IndexOutOfBounds)
    else Ok(q.(data := data, initialSize := size, size := size, tail := size))
  }

  /** The state Queue(data, size, copy) creates: setRawData on a fresh object, whose
      `head` is 0, with no notifications yet. */
  function Initial(data: seq<Int8>, size: int): (r: Result<Ring>)
    ensures r.Throw? <==> size > |data|
  {
    SetRawData(Ring([], 0, 0, 0, 0, []), data, size)
  }

  /** setRawData leaves the ring consistent exactly when `head` was already 0: it
      moves `tail` to `size` but keeps `head`. Then the queue holds data[0 .. size). */
  lemma SetRawDataConsistentIffHeadZero(q: Ring, data: seq<Int8>, size: int)
    requires 1 <= |data| && 0 <= size <= |data| && 0 <= q.head < |data|
    ensures var r := SetRawData(q, data, size);
      r.Ok? && r.value.head == q.head && (Inv(r.value) <==> q.head == 0) &&
      (q.head == 0 ==> Contents(r.value) == data[..size])
  {
    var r := SetRawData(q, data, size).value;
    if q.head == 0 {
      assert forall i :: 0 <= i < size ==> Contents(r)[i] == data[..size][i];
    }
  }

  /** setRawData accepts a negative size, an empty array and an array too short for the
      old `head`, and each of them leaves the ring inconsistent. */
  lemma SetRawDataInconsistent(q: Ring, data: seq<Int8>, size: int)
    requires size <= |data|
    requires size < 0 || |data| == 0 || !(0 <= q.head < |data|)
    ensures var r := SetRawData(q, data, size);
      r.Ok? && !Inv(r.value)
  {
  }

  /** A constructed queue is consistent, holds data[0 .. size) and has sent nothing. */
  lemma InitialIsConsistent(data: seq<Int8>, size: int)
    requires 1 <= |data| && 0 <= size <= |data|
    ensures var r := Initial(data, size);
      r.Ok? && Inv(r.value) && Contents(r.value) == data[..size] && r.value.initialSize == size &&
      r.value.events == []
  {
    SetRawDataConsistentIffHeadZero(Ring([], 0, 0, 0, 0, []), data, size);
  }

  /** clear() */
  function Clear(q: Ring): (r: Ring)
    ensures IsEmpty(r) && r.head == 0 && r.tail == 0
    ensures r.data == q.data && r.initialSize == q.initialSize && r.events == q.events
  {
    q.(head := 0, tail := 0, size := 0)
  }

  /** clear() empties the queue and leaves the storage and the initial size alone. */
  lemma ClearEmpties(q: Ring)
    requires Inv(q)
    ensures Inv(Clear(q)) && Contents(Clear(q)) == []
    ensures Clear(q).data == q.data && Clear(q).initialSize == q.initialSize && Clear(q).events == q.events
  {
  }

  /** reset() */
  function Reset(q: Ring): (r: Ring)
    ensures r.size == q.initialSize && r.tail == q.initialSize && r.head == 0
    ensures r.data == q.data && r.initialSize == q.initialSize && r.events == q.events
  {
    q.(size := q.initialSize, tail := q.initialSize, head := 0)
  }

  /** reset() makes the first `initialSize` bytes of the storage the contents again. */
  lemma ResetExposesInitialBytes(q: Ring)
    requires Inv(q)
    ensures Inv(Reset(q)) && Contents(Reset(q)) == q.data[..q.initialSize]
  {
    SetRawDataConsistentIffHeadZero(q.(head := 0), q.data, q.initialSize);
    assert Reset(q) == SetRawData(q.(head := 0), q.data, q.initialSize).value;
  }

  // ---------------------------------------------------------------------------
  // insert, behind push (overwrite) and add (preserve)

  /** The queue after insert/push/add, and whether the call threw. */
  datatype Inserted = Inserted(ring: Ring, result: Result<()>)

  /** The end of an insertion: onFull fires when the queue was not full before and is
      full now; nothing but the notification log changes. */
  function AfterInsert(q: Ring, wasFull: bool): (r: Inserted)
    ensures r.result == Ok(()) && r.ring.data == q.data && r.ring.initialSize == q.initialSize
    ensures r.ring == q.(events := q.events + if !wasFull && IsFull(q) then [Full(q.head, q.tail, q.size)] else [])
  {
    Inserted(if !wasFull && IsFull(q) then FireOnFull(q) else q, Ok(()))
  }

  /** How many of `count` bytes an insertion takes: all of them under `push`, at most the
      free space under `add`. */
  function Accepted(q: Ring, count: int, overwriteOldData: bool): (r: int)
    ensures overwriteOldData ==> r == count
    ensures !overwriteOldData ==> r <= count && r <= |q.data| - q.size && (r == count || r == |q.data| - q.size)
  {
    if overwriteOldData then count else Min(|q.data| - q.size, count)
  }

  /** insert(src, srcFrom, srcTo, overwriteOldData) as written. */
  function Insert(q: Ring, src: seq<Int8>, srcFrom: int, srcTo: int, overwriteOldData: bool): (r: Inserted)
    ensures |r.ring.data| == |q.data| && r.ring.initialSize == q.initialSize
    ensures srcTo - srcFrom < 1 ==> r == Inserted(q, Throw(IllegalArgument))
    ensures srcTo - srcFrom >= 1 && !overwriteOldData && IsFull(q) ==> r == Inserted(q, Ok(()))
  {
    if srcTo - srcFrom < 1 then
      Inserted(q, Throw(IllegalArgument))
    else
      var wasFull := IsFull(q);
      if !overwriteOldData && wasFull then
        Inserted(q, Ok(()))
      else
        var n := Accepted(q, srcTo - srcFrom, overwriteOldData);
        if |src| > |q.data| then InsertOverflow(q, src, srcFrom, srcTo, wasFull)
        else InsertRing(q, src, srcFrom, srcTo, n, wasFull)
  }

  /** A source array longer than the capacity: the static push fills the whole storage
      from the untruncated range and the queue becomes full with head = tail = 0. */
  function InsertOverflow(q: Ring, src: seq<Int8>, srcFrom: int, srcTo: int, wasFull: bool): (r: Inserted)
    ensures |r.ring.data| == |q.data| && r.ring.initialSize == q.initialSize
  {
    var p := FlatPush.Push(src, srcFrom, srcTo, q.data, |q.data|);
    if p.result.Throw? then Inserted(q.(data := p.dst), Throw(p.result.exception))
    else AfterInsert(q.(data := p.dst, head := 0, tail := 0, size := |q.data|), wasFull)
  }

  /** The circular write of `n` bytes at `tail`: when they do not fit before the end of
      the array the first part goes to [tail, capacity), and the second copy has length
      `srcTo - lastData`. With a capacity of 0 the reduction of `tail` divides by zero. */
  function InsertRing(q: Ring, src: seq<Int8>, srcFrom: int, srcTo: int, n: int, wasFull: bool): (r: Inserted)
    ensures |r.ring.data| == |q.data| && r.ring.initialSize == q.initialSize
  {
    var capacity := |q.data|;
    var lastData := Min(capacity - q.tail, n);
    var freeSpace := capacity - q.size;
    if lastData < n then InsertWrapped(q, src, srcFrom, srcTo, n, wasFull, lastData, freeSpace)
    else InsertLast(q, src, srcFrom, lastData, n, freeSpace, wasFull)
  }

  /** The first copy of an insertion that runs past the end of the array, up to the
      end, and the update of `tail` before the last copy. */
  function InsertWrapped(q: Ring, src: seq<Int8>, srcFrom: int, srcTo: int, n: int, wasFull: bool,
                         lastData: int, freeSpace: int): (r: Inserted)
    ensures |r.ring.data| == |q.data| && r.ring.initialSize == q.initialSize
  {
    match Copy(src, srcFrom, q.data, q.tail, lastData)
    case Throw(e) => Inserted(q, Throw(e))
    case Ok(d) =>
      if |q.data| == 0 then Inserted(q.(data := d), Throw(Arithmetic))
      else InsertLast(q.(data := d, tail := Rem(q.tail + lastData, |q.data|)), src, srcFrom + lastData, srcTo - lastData, n, freeSpace, wasFull)
  }

  /** The last copy of an insertion and the index updates after it. */
  function InsertLast(q: Ring, src: seq<Int8>, srcFrom: int, length: int, n: int, freeSpace: int, wasFull: bool): (r: Inserted)
    ensures |r.ring.data| == |q.data| && r.ring.initialSize == q.initialSize
  {
    match Copy(src, srcFrom, q.data, q.tail, length)
    case Throw(e) => Inserted(q, Throw(e))
    case Ok(d) =>
      var capacity := |q.data|;
      if capacity == 0 then Inserted(q.(data := d), Throw(Arithmetic))
      else AfterInsert(q.(data := d, tail := Rem(q.tail + length, capacity),
                     head := if freeSpace < n then Rem(q.head + (n - freeSpace), capacity) else q.head,
                     size := Min(capacity, q.size + n)), wasFull)
  }

  /** How far slot p lies past slot `start`, going round a ring of m slots. */
  function Offset(p: int, start: int, m: int): int
  {
    if p >= start then p - start else p - start + m
  }

  /** The storage after writing `chunk` circularly from slot `start`: slot p receives
      chunk[Offset(p, start, capacity)] when that exists. */
  ghost function WriteRing(data: seq<Int8>, start: int, chunk: seq<Int8>): (r: seq<Int8>)
    requires 0 <= start < |data|
    ensures |r| == |data|
  {
    seq(|data|, p =>
      var o := if p >= start then p - start else p - start + |data|;
      if 0 <= p < |data| then (if o < |chunk| then chunk[o] else data[p]) else 0)
  }

  /** The number of old bytes an append of `n` bytes evicts. */
  function Evicted(q: Ring, n: int): int
  {
    if |q.data| - q.size < n then q.size + n - |q.data| else 0
  }

  /** The intended effect of appending `chunk`: it is written circularly from the slot
      `tail` denotes, `tail` moves past it, and when it does not fit the free space the
      oldest bytes are evicted by moving `head`. */
  ghost function Appended(q: Ring, chunk: seq<Int8>): Ring
    requires Inv(q) && |chunk| <= |q.data|
  {
    var capacity := |q.data|;
    var start := Wrap(q.tail, capacity);
    q.(data := WriteRing(q.data, start, chunk),
       tail := Wrap(start + |chunk|, capacity),
       head := Wrap(q.head + Evicted(q, |chunk|), capacity),
       size := Min(capacity, q.size + |chunk|))
  }

  /** Appending keeps the invariant. */
  lemma AppendedInv(q: Ring, chunk: seq<Int8>)
    requires Inv(q) && 1 <= |chunk| <= |q.data|
    ensures Inv(Appended(q, chunk))
  {
  }

  /** The index arithmetic of an append of n bytes: byte i of the new queue, which is
      byte j = e + i of the old contents followed by the chunk (e evicted), sits in slot
      p, which lies `o` slots past the old tail: in front of the chunk for an old byte,
      at chunk position j - size for a new one. */
  lemma AppendSlot(head: int, size: int, tail: int, m: int, n: int, e: int, i: int, newHead: int, start: int, p: int, o: int)
    requires 1 <= m && 0 <= size <= m && 0 <= head < m && 0 <= tail <= m
    requires Wrap(tail, m) == Wrap(head + size, m)
    requires 1 <= n <= m && 0 <= i < Min(m, size + n)
    requires e == (if m - size < n then size + n - m else 0) && newHead == Wrap(head + e, m)
    requires start == Wrap(tail, m) && p == Wrap(newHead + i, m) && o == Offset(p, start, m)
    ensures 0 <= p < m && 0 <= o < m
    ensures e + i < size ==> p == Wrap(head + (e + i), m) && o >= n
    ensures e + i >= size ==> o == e + i - size
  {
  }

  /** Byte i of the queue, by slot. */
  lemma ContentsAt(q: Ring, i: int)
    requires 0 <= q.head < |q.data| && 0 <= q.size <= |q.data| && 0 <= i < q.size
    ensures Contents(q)[i] == q.data[Wrap(q.head + i, |q.data|)]
  {
  }

  /** Slot p of a circular write. */
  lemma WriteRingAt(data: seq<Int8>, start: int, chunk: seq<Int8>, p: int)
    requires 0 <= start < |data| && 0 <= p < |data|
    ensures var o := Offset(p, start, |data|);
      WriteRing(data, start, chunk)[p] == if o < |chunk| then chunk[o] else data[p]
  {
  }

  /** Byte i of any ring `a` with the fields an append gives is byte e + i of the old
      contents followed by the chunk, where e is the number evicted. */
  lemma AppendedFieldsAt(q: Ring, chunk: seq<Int8>, a: Ring, i: int)
    requires Inv(q) && 1 <= |chunk| <= |q.data|
    requires 0 <= i < Min(|q.data|, q.size + |chunk|)
    requires |a.data| == |q.data| && a.size == Min(|q.data|, q.size + |chunk|)
    requires a.head == Wrap(q.head + Evicted(q, |chunk|), |q.data|)
    requires a.data == WriteRing(q.data, Wrap(q.tail, |q.data|), chunk)
    ensures var j := Evicted(q, |chunk|) + i;
      0 <= a.head < |a.data| &&
      Contents(a)[i] == if j < q.size then Contents(q)[j] else chunk[j - q.size]
  {
    var m := |q.data|;
    var e := Evicted(q, |chunk|);
    var j := e + i;
    var start := Wrap(q.tail, m);
    var p := Wrap(a.head + i, m);
    var o := Offset(p, start, m);
    AppendSlot(q.head, q.size, q.tail, m, |chunk|, e, i, a.head, start, p, o);
    ContentsAt(a, i);
    WriteRingAt(q.data, start, chunk, p);
    if j < q.size {
      ContentsAt(q, j);
    }
  }

  /** Byte i of the newest m elements of `prior + chunk` is element e + i of it, where e
      is the number of prior elements an append of the chunk evicts. */
  lemma LastJoinedAt(prior: seq<Int8>, chunk: seq<Int8>, m: int, e: int, i: int)
    requires |prior| <= m && 1 <= |chunk| <= m
    requires e == (if m - |prior| < |chunk| then |prior| + |chunk| - m else 0)
    requires 0 <= i < Min(m, |prior| + |chunk|)
    ensures FlatPush.Last(prior + chunk, m)[i] == if e + i < |prior| then prior[e + i] else chunk[e + i - |prior|]
  {
    var joined := prior + chunk;
    var last := FlatPush.Last(joined, m);
    assert |joined| - |last| + i == e + i;
    assert last[i] == joined[e + i];
  }

  /** Appending yields the newest `capacity` bytes of the old contents followed by the
      chunk. */
  lemma AppendedContents(q: Ring, chunk: seq<Int8>)
    requires Inv(q) && 1 <= |chunk| <= |q.data|
    ensures Inv(Appended(q, chunk))
    ensures Contents(Appended(q, chunk)) == FlatPush.Last(Contents(q) + chunk, |q.data|)
  {
    AppendedInv(q, chunk);
    var r := Appended(q, chunk);
    var joined := Contents(q) + chunk;
    var last := FlatPush.Last(joined, |q.data|);
    assert |last| == r.size;
    forall i | 0 <= i < r.size
      ensures Contents(r)[i] == last[i]
    {
      AppendedFieldsAt(q, chunk, r, i);
      LastJoinedAt(Contents(q), chunk, |q.data|, Evicted(q, |chunk|), i);
    }
  }

  /** A circular write that does not reach the end of the array is a plain splice. */
  lemma WriteRingNoWrap(data: seq<Int8>, start: int, chunk: seq<Int8>)
    requires 0 <= start < |data| && start + |chunk| <= |data|
    ensures WriteRing(data, start, chunk) == data[..start] + chunk + data[start + |chunk|..]
  {
    var w := WriteRing(data, start, chunk);
    var v := data[..start] + chunk + data[start + |chunk|..];
    assert forall p :: 0 <= p < |data| ==> w[p] == v[p];
  }

  /** The two copies of a wrapping insertion write the bytes circularly: first
      src[srcFrom ..] into [start, capacity), then the rest into [0, ...). */
  lemma TwoCopiesWriteRing(data: seq<Int8>, start: int, src: seq<Int8>, srcFrom: int, n: int, d1: seq<Int8>, d2: seq<Int8>)
    requires 0 <= start < |data| < start + n <= start + |data| && 0 <= srcFrom && srcFrom + n <= |src|
    requires Copy(src, srcFrom, data, start, |data| - start) == Ok(d1)
    requires Copy(src, srcFrom + (|data| - start), d1, 0, n - (|data| - start)) == Ok(d2)
    ensures d2 == WriteRing(data, start, src[srcFrom..srcFrom + n])
  {
    var m := |data|;
    var lastData := m - start;
    var w := WriteRing(data, start, src[srcFrom..srcFrom + n]);
    CopyWrites(src, srcFrom, data, start, lastData);
    CopyWrites(src, srcFrom + lastData, d1, 0, n - lastData);
    forall p | 0 <= p < m
      ensures d2[p] == w[p]
    {
      if p < n - lastData {
        assert d2[p] == src[srcFrom + lastData + p];
      } else if p < start {
        assert d2[p] == d1[p] == data[p];
      } else {
        assert d2[p] == d1[p] == src[srcFrom + (p - start)];
      }
    }
  }

  /** The index updates at the end of an insertion, as one-turn wraps. */
  lemma InsertLastUpdates(q: Ring, src: seq<Int8>, srcFrom: int, length: int, n: int, freeSpace: int, wasFull: bool, d: seq<Int8>)
    requires |q.data| >= 1 && 0 <= q.tail + length < 2 * |q.data| && 0 <= q.head
    requires freeSpace == |q.data| - q.size
    requires freeSpace < n ==> q.head + (n - freeSpace) < 2 * |q.data|
    requires Copy(src, srcFrom, q.data, q.tail, length) == Ok(d)
    ensures InsertLast(q, src, srcFrom, length, n, freeSpace, wasFull) ==
        AfterInsert(q.(data := d,
                       tail := Wrap(q.tail + length, |q.data|),
                       head := if freeSpace < n then Wrap(q.head + (n - freeSpace), |q.data|) else q.head,
                       size := Min(|q.data|, q.size + n)), wasFull)
  {
    var m := |q.data|;
    RemWraps(q.tail + length, m);
    if freeSpace < n {
      RemWraps(q.head + (n - freeSpace), m);
    }
  }

  /** The insertion of bytes that fit before the end of the array. */
  lemma InsertRingNoWrap(q: Ring, src: seq<Int8>, srcFrom: int, srcTo: int, n: int, wasFull: bool)
    requires Inv(q) && 1 <= n <= |q.data| - q.tail && 0 <= srcFrom && srcFrom + n <= |src|
    ensures InsertRing(q, src, srcFrom, srcTo, n, wasFull) == AfterInsert(Appended(q, src[srcFrom..srcFrom + n]), wasFull)
  {
    var chunk := src[srcFrom..srcFrom + n];
    var d := Copy(src, srcFrom, q.data, q.tail, n).value;
    WriteRingNoWrap(q.data, q.tail, chunk);
    InsertLastUpdates(q, src, srcFrom, n, n, |q.data| - q.size, wasFull, d);
  }

  /** The wrap branch of insert after a first copy that stays in bounds. */
  lemma InsertRingSplit(q: Ring, src: seq<Int8>, srcFrom: int, srcTo: int, n: int, wasFull: bool,
                        d1: seq<Int8>, q1: Ring, from: int, length: int, freeSpace: int)
    requires |q.data| >= 1 && |q.data| - q.tail < n
    requires Copy(src, srcFrom, q.data, q.tail, |q.data| - q.tail) == Ok(d1)
    requires q1 == q.(data := d1, tail := Rem(q.tail + (|q.data| - q.tail), |q.data|))
    requires from == srcFrom + (|q.data| - q.tail) && length == srcTo - (|q.data| - q.tail)
    requires freeSpace == |q.data| - q.size
    ensures InsertRing(q, src, srcFrom, srcTo, n, wasFull) == InsertLast(q1, src, from, length, n, freeSpace, wasFull)
  {
  }

  /** The insertion of bytes that cross the end of the array, when `srcTo` equals the
      number of bytes accepted. */
  lemma InsertRingWrap(q: Ring, src: seq<Int8>, srcFrom: int, srcTo: int, n: int, wasFull: bool)
    requires Inv(q) && q.tail < |q.data| && |q.data| - q.tail < n <= |q.data| && 0 <= srcFrom && srcFrom + n <= |src|
    requires srcTo == n
    ensures InsertRing(q, src, srcFrom, srcTo, n, wasFull) == AfterInsert(Appended(q, src[srcFrom..srcFrom + n]), wasFull)
  {
    var m := |q.data|;
    var lastData := m - q.tail;
    var chunk := src[srcFrom..srcFrom + n];
    var d1 := Copy(src, srcFrom, q.data, q.tail, lastData).value;
    var d2 := Copy(src, srcFrom + lastData, d1, 0, n - lastData).value;
    TwoCopiesWriteRing(q.data, q.tail, src, srcFrom, n, d1, d2);
    RemWraps(q.tail + lastData, m);
    var q1 := q.(data := d1, tail := 0);
    var freeSpace := m - q.size;
    var from, length := srcFrom + lastData, srcTo - lastData;
    InsertRingSplit(q, src, srcFrom, srcTo, n, wasFull, d1, q1, from, length, freeSpace);
    var head := if freeSpace < n then Wrap(q.head + (n - freeSpace), m) else q.head;
    var size := Min(m, q.size + n);
    InsertLastUpdates(q1, src, from, length, n, freeSpace, wasFull, d2);
    AppendedIs(q, chunk, d2, n - lastData, head, size);
    var x := q1.(data := d2, tail := Wrap(q1.tail + length, |q1.data|),
                 head := if freeSpace < n then Wrap(q1.head + (n - freeSpace), |q1.data|) else q1.head,
                 size := Min(|q1.data|, q1.size + n));
    assert x == q.(data := d2, tail := n - lastData, head := head, size := size);
    assert InsertRing(q, src, srcFrom, srcTo, n, wasFull) == AfterInsert(x, wasFull);
  }

  /** Appended, field by field, for values computed elsewhere. */
  lemma AppendedIs(q: Ring, chunk: seq<Int8>, data: seq<Int8>, tail: int, head: int, size: int)
    requires Inv(q) && |chunk| <= |q.data|
    requires data == WriteRing(q.data, Wrap(q.tail, |q.data|), chunk)
    requires tail == Wrap(Wrap(q.tail, |q.data|) + |chunk|, |q.data|)
    requires head == Wrap(q.head + Evicted(q, |chunk|), |q.data|)
    requires size == Min(|q.data|, q.size + |chunk|)
    ensures Appended(q, chunk) == q.(data := data, tail := tail, head := head, size := size)
  {
  }

  /** With `tail` at the end of the array (after setRawData on a full array), the first
      copy is empty and the insertion is the one at slot 0. */
  lemma InsertRingAtEnd(q: Ring, src: seq<Int8>, srcFrom: int, srcTo: int, n: int, wasFull: bool)
    requires Inv(q) && q.tail == |q.data| && 1 <= n <= |q.data| && 0 <= srcFrom && srcFrom + n <= |src|
    requires srcTo == n
    ensures InsertRing(q, src, srcFrom, srcTo, n, wasFull) == AfterInsert(Appended(q, src[srcFrom..srcFrom + n]), wasFull)
  {
    var m := |q.data|;
    var chunk := src[srcFrom..srcFrom + n];
    var q0 := q.(tail := 0);
    var freeSpace := m - q.size;
    CopyNothing(src, srcFrom, q.data, q.tail);
    RemWraps(q.tail, q.tail);
    InsertRingSplit(q, src, srcFrom, srcTo, n, wasFull, q.data, q0, srcFrom, srcTo, freeSpace);
    var d := Copy(src, srcFrom, q.data, 0, n).value;
    WriteRingNoWrap(q.data, 0, chunk);
    InsertLastUpdates(q0, src, srcFrom, srcTo, n, freeSpace, wasFull, d);
    var head := if freeSpace < n then Wrap(q.head + (n - freeSpace), m) else q.head;
    var size := Min(m, q.size + n);
    AppendedIs(q, chunk, d, Wrap(n, m), head, size);
    var x := q0.(data := d, tail := Wrap(q0.tail + srcTo, |q0.data|),
                 head := if freeSpace < n then Wrap(q0.head + (n - freeSpace), |q0.data|) else q0.head,
                 size := Min(|q0.data|, q0.size + n));
    assert x == q.(data := d, tail := Wrap(n, m), head := head, size := size);
  }

  /** An insertion of n bytes that takes the no-wrap branch, or the wrap branch with an
      exact second copy, appends them. */
  lemma InsertRingAppends(q: Ring, src: seq<Int8>, srcFrom: int, srcTo: int, n: int, wasFull: bool)
    requires Inv(q) && 1 <= n <= |q.data| && 0 <= srcFrom && srcFrom + n <= |src|
    requires n <= |q.data| - q.tail || srcTo == n
    ensures InsertRing(q, src, srcFrom, srcTo, n, wasFull) == AfterInsert(Appended(q, src[srcFrom..srcFrom + n]), wasFull)
  {
    if n <= |q.data| - q.tail {
      InsertRingNoWrap(q, src, srcFrom, srcTo, n, wasFull);
    } else if q.tail == |q.data| {
      InsertRingAtEnd(q, src, srcFrom, srcTo, n, wasFull);
    } else {
      InsertRingWrap(q, src, srcFrom, srcTo, n, wasFull);
    }
  }

  /** What appending `chunk` and notifying leaves: the invariant, the newest `capacity`
      bytes of the old contents followed by the chunk, `head` advanced by the evicted
      count, and a Full notification exactly when the queue becomes full. */
  lemma AppendOutcome(q: Ring, chunk: seq<Int8>, r: Inserted)
    requires Inv(q) && 1 <= |chunk| <= |q.data|
    requires r == AfterInsert(Appended(q, chunk), IsFull(q))
    ensures r.result == Ok(()) && Inv(r.ring)
    ensures Contents(r.ring) == FlatPush.Last(Contents(q) + chunk, |q.data|)
    ensures r.ring.size == Min(|q.data|, q.size + |chunk|)
    ensures r.ring.head == Wrap(q.head + (if q.size + |chunk| > |q.data| then q.size + |chunk| - |q.data| else 0), |q.data|)
    ensures r.ring.events == q.events + (if !IsFull(q) && IsFull(r.ring) then [Full(r.ring.head, r.ring.tail, r.ring.size)] else [])
  {
    var a := Appended(q, chunk);
    AppendedContents(q, chunk);
    assert r.ring == a.(events := r.ring.events);
    NotifyingKeepsContents(a, r.ring.events);
  }

  /** Notifications change neither the invariant nor the contents. */
  lemma NotifyingKeepsContents(q: Ring, events: seq<Event>)
    requires Inv(q)
    ensures Inv(q.(events := events)) && Contents(q.(events := events)) == Contents(q)
  {
    var e := q.(events := events);
    assert forall i :: 0 <= i < q.size ==> Contents(e)[i] == Contents(q)[i];
  }

  /** An insertion that goes ahead with a source array no longer than the capacity is
      the circular write of the accepted count. */
  lemma InsertTakesRing(q: Ring, src: seq<Int8>, srcFrom: int, srcTo: int, overwriteOldData: bool, n: int, wasFull: bool)
    requires |q.data| >= 1 && |src| <= |q.data| && srcTo - srcFrom >= 1
    requires wasFull == IsFull(q) && (overwriteOldData || !wasFull)
    requires n == Accepted(q, srcTo - srcFrom, overwriteOldData)
    ensures Insert(q, src, srcFrom, srcTo, overwriteOldData) == InsertRing(q, src, srcFrom, srcTo, n, wasFull)
  {
  }

  /** Both policies with a source array no longer than the capacity and an exact split
      copy: the insertion is the intended append of the accepted bytes, with the Full
      notification of AfterInsert (whose effect AppendOutcome states). */
  lemma InsertAppends(q: Ring, src: seq<Int8>, srcFrom: int, srcTo: int, overwriteOldData: bool, n: int)
    requires Inv(q) && |src| <= |q.data| && 0 <= srcFrom < srcTo <= |src|
    requires overwriteOldData || !IsFull(q)
    requires n == Accepted(q, srcTo - srcFrom, overwriteOldData)
    requires n <= |q.data| - q.tail || srcTo == n
    ensures 1 <= n <= |q.data|
    ensures Insert(q, src, srcFrom, srcTo, overwriteOldData) == AfterInsert(Appended(q, src[srcFrom..srcFrom + n]), IsFull(q))
  {
    InsertTakesRing(q, src, srcFrom, srcTo, overwriteOldData, n, IsFull(q));
    InsertRingAppends(q, src, srcFrom, srcTo, n, IsFull(q));
  }

  /** push(src, 0, srcTo) with a source array no longer than the capacity: the contents
      become the newest `capacity` bytes of old contents followed by src[0 .. srcTo),
      and `head` advances by the overflow. */
  lemma PushOverwritesOldest(q: Ring, src: seq<Int8>, srcTo: int)
    requires Inv(q) && 1 <= srcTo <= |src| <= |q.data|
    ensures Insert(q, src, 0, srcTo, true).result == Ok(()) && Inv(Insert(q, src, 0, srcTo, true).ring)
    ensures Contents(Insert(q, src, 0, srcTo, true).ring) == FlatPush.Last(Contents(q) + src[..srcTo], |q.data|)
    ensures Insert(q, src, 0, srcTo, true).ring.size == Min(|q.data|, q.size + srcTo)
    ensures Insert(q, src, 0, srcTo, true).ring.head ==
      Wrap(q.head + (if q.size + srcTo > |q.data| then q.size + srcTo - |q.data| else 0), |q.data|)
  {
    var r := Insert(q, src, 0, srcTo, true);
    var chunk := src[..srcTo];
    assert src[0..0 + srcTo] == chunk;
    InsertAppends(q, src, 0, srcTo, true, srcTo);
    assert r == AfterInsert(Appended(q, chunk), IsFull(q));
    AppendOutcome(q, chunk, r);
  }

  /** add(src, srcFrom, srcTo) on a queue that is not full, with a source array no
      longer than the capacity: when it returns normally it has accepted min(n, free
      space) bytes and never moved `head`. */
  lemma AddKeepsHead(q: Ring, src: seq<Int8>, srcFrom: int, srcTo: int)
    requires Inv(q) && !IsFull(q) && |src| <= |q.data| && 0 <= srcFrom < srcTo <= |src|
    ensures var r := Insert(q, src, srcFrom, srcTo, false);
      r.result.Ok? ==> r.ring.head == q.head && r.ring.size == q.size + Min(|q.data| - q.size, srcTo - srcFrom)
  {
    var k := Min(|q.data| - q.size, srcTo - srcFrom);
    InsertTakesRing(q, src, srcFrom, srcTo, false, k, false);
    InsertRingCounts(q, src, srcFrom, srcTo, k, false);
  }

  /** ... and when the split copy is exact (the bytes fit before the end of the array,
      or the range starts at 0) it appends them in order behind the old contents. */
  lemma AddAppends(q: Ring, src: seq<Int8>, srcFrom: int, srcTo: int)
    requires Inv(q) && !IsFull(q) && |src| <= |q.data| && 0 <= srcFrom < srcTo <= |src|
    requires var k := Min(|q.data| - q.size, srcTo - srcFrom);
      k <= |q.data| - q.tail || (srcFrom == 0 && srcTo <= |q.data| - q.size)
    ensures var k := Min(|q.data| - q.size, srcTo - srcFrom);
      var r := Insert(q, src, srcFrom, srcTo, false);
      r.result == Ok(()) && Inv(r.ring) && Contents(r.ring) == Contents(q) + src[srcFrom..srcFrom + k]
  {
    var k := Min(|q.data| - q.size, srcTo - srcFrom);
    var r := Insert(q, src, srcFrom, srcTo, false);
    InsertTakesRing(q, src, srcFrom, srcTo, false, k, false);
    InsertRingAppends(q, src, srcFrom, srcTo, k, false);
    AppendFitting(q, src[srcFrom..srcFrom + k], r);
  }

  /** An append that fits the free space puts the chunk behind the old contents. */
  lemma AppendFitting(q: Ring, chunk: seq<Int8>, r: Inserted)
    requires Inv(q) && 1 <= |chunk| <= |q.data| - q.size
    requires r == AfterInsert(Appended(q, chunk), IsFull(q))
    ensures r.result == Ok(()) && Inv(r.ring) && Contents(r.ring) == Contents(q) + chunk
  {
    AppendOutcome(q, chunk, r);
    assert FlatPush.Last(Contents(q) + chunk, |q.data|) == Contents(q) + chunk;
  }

  /** Whatever an insertion of n bytes copies, when it returns normally it has set
      `size` to min(capacity, size + n) and moved `head` only past evicted bytes. */
  lemma InsertRingCounts(q: Ring, src: seq<Int8>, srcFrom: int, srcTo: int, n: int, wasFull: bool)
    requires |q.data| >= 1
    ensures var r := InsertRing(q, src, srcFrom, srcTo, n, wasFull); var m := |q.data|;
      r.result.Ok? ==>
        r.ring.size == Min(m, q.size + n) &&
        r.ring.head == if m - q.size < n then Rem(q.head + (n - (m - q.size)), m) else q.head
  {
  }

  /** A full queue with head = tail = 0 is consistent and holds its whole storage in
      order. */
  lemma WholeStorage(q: Ring)
    requires |q.data| >= 1 && q.head == 0 && q.tail == 0 && q.size == |q.data|
    requires 0 <= q.initialSize <= |q.data|
    ensures Inv(q) && Contents(q) == q.data
  {
    assert forall i :: 0 <= i < q.size ==> Contents(q)[i] == q.data[i];
  }

  /** A source array longer than the capacity, under either policy (unless `add` meets
      a full queue): with the slice inside `src` the insertion succeeds, the queue
      becomes full with head = tail = 0, and the storage holds the newest `capacity`
      bytes of the old storage followed by the whole slice — exactly the slice's last
      `capacity` bytes when it is at least that long. */
  lemma OverflowReplacesStorage(q: Ring, src: seq<Int8>, srcFrom: int, srcTo: int, overwriteOldData: bool)
    requires Inv(q) && |src| > |q.data| && 0 <= srcFrom < srcTo <= |src|
    requires overwriteOldData || !IsFull(q)
    ensures var r := Insert(q, src, srcFrom, srcTo, overwriteOldData);
      r.result == Ok(()) && r.ring.head == 0 && r.ring.tail == 0 && r.ring.size == |q.data|
    ensures var r := Insert(q, src, srcFrom, srcTo, overwriteOldData);
      Inv(r.ring) && Contents(r.ring) == r.ring.data
    ensures Insert(q, src, srcFrom, srcTo, overwriteOldData).ring.data == FlatPush.Last(q.data + src[srcFrom..srcTo], |q.data|)
    ensures srcTo - srcFrom >= |q.data| ==>
      Insert(q, src, srcFrom, srcTo, overwriteOldData).ring.data == src[srcTo - |q.data|..srcTo]
  {
    var m := |q.data|;
    FlatPush.PushKeepsNewest(src, srcFrom, srcTo, q.data, m);
    assert q.data[..m] == q.data;
    var d := FlatPush.Push(src, srcFrom, srcTo, q.data, m).dst;
    var full := q.(data := d, head := 0, tail := 0, size := m);
    var r := Insert(q, src, srcFrom, srcTo, overwriteOldData);
    assert r == AfterInsert(full, IsFull(q));
    WholeStorage(r.ring);
    if srcTo - srcFrom >= m {
      FlatPush.LastOfLongSlice(q.data, src, srcFrom, srcTo, m);
    }
  }

  /** Every successful insertion notifies Full exactly when it takes the size from below
      the capacity to the capacity, logged after the index updates; a throwing one
      notifies nothing. */
  lemma InsertNotifiesFullOnEdge(q: Ring, src: seq<Int8>, srcFrom: int, srcTo: int, overwriteOldData: bool)
    requires |q.data| >= 1
    ensures var r := Insert(q, src, srcFrom, srcTo, overwriteOldData);
      r.ring.events == q.events +
        (if r.result.Ok? && !IsFull(q) && IsFull(r.ring) then [Full(r.ring.head, r.ring.tail, r.ring.size)] else [])
  {
  }

  // ---------------------------------------------------------------------------
  // peek and pop

  /** The caller's array after peek, and what the call returned or threw. */
  datatype Peeked = Peeked(dst: seq<Int8>, result: Result<int>)

  /** peek(dst, numberOfElements, dstOffset) as written. The storage is read, never
      written; with a capacity of 0 the reduction of the end index divides by zero. */
  function Peek(q: Ring, dst: seq<Int8>, count: int, offset: int): (r: Peeked)
    ensures |r.dst| == |dst|
    ensures IsEmpty(q) ==> r == Peeked(dst, Ok(0))
    ensures !IsEmpty(q) && (count < 0 || offset < 0 || count + offset > |dst|) ==>
      r == Peeked(dst, Throw(IndexOutOfBounds))
    ensures r.result.Ok? && !IsEmpty(q) ==> r.result.value == Min(count, q.size)
  {
    if IsEmpty(q) then
      Peeked(dst, Ok(0))
    else if count < 0 || offset < 0 || count + offset > |dst| then
      Peeked(dst, Throw(IndexOutOfBounds))
    else if |q.data| == 0 then
      Peeked(dst, Throw(Arithmetic))
    else
      var capacity := |q.data|;
      var k := Min(count, q.size);
      var lastData := capacity - q.head;
      var endIndex := Rem(q.head + k, capacity);
      if q.head >= endIndex then
        match Copy(q.data, q.head, dst, offset, lastData)
        case Throw(e) => Peeked(dst, Throw(e))
        case Ok(d1) =>
          match Copy(q.data, 0, d1, lastData, endIndex)
          case Throw(e) => Peeked(d1, Throw(e))
          case Ok(d2) => Peeked(d2, Ok(k))
      else
        match Copy(q.data, q.head, dst, offset, k)
        case Throw(e) => Peeked(dst, Throw(e))
        case Ok(d) => Peeked(d, Ok(k))
  }

  /** On a consistent non-empty queue, a request for at least one byte with valid
      arguments returns k = min(count, size) and never throws. */
  lemma PeekReturnsCount(q: Ring, dst: seq<Int8>, count: int, offset: int)
    requires Inv(q) && !IsEmpty(q)
    requires 1 <= count && 0 <= offset && count + offset <= |dst|
    ensures Peek(q, dst, count, offset).result == Ok(Min(count, q.size))
  {
    RemWraps(q.head + Min(count, q.size), |q.data|);
  }

  /** A read that ends before the end of the array is one copy of k bytes from `head`. */
  lemma PeekDirect(q: Ring, dst: seq<Int8>, count: int, offset: int)
    requires Inv(q) && !IsEmpty(q)
    requires 1 <= count && 0 <= offset && count + offset <= |dst|
    requires q.head + Min(count, q.size) < |q.data|
    ensures var k := Min(count, q.size);
      Peek(q, dst, count, offset) == Peeked(Copy(q.data, q.head, dst, offset, k).value, Ok(k))
  {
    RemWraps(q.head + Min(count, q.size), |q.data|);
  }

  /** A read that reaches the end of the array is two copies: [head, capacity) to
      dst[offset ..], then [0, endIndex) to dst[lastData ..]. */
  lemma PeekSplit(q: Ring, dst: seq<Int8>, count: int, offset: int)
    requires Inv(q) && !IsEmpty(q)
    requires 1 <= count && 0 <= offset && count + offset <= |dst|
    requires q.head + Min(count, q.size) >= |q.data|
    ensures Copy(q.data, q.head, dst, offset, |q.data| - q.head).Ok?
    ensures var d1 := Copy(q.data, q.head, dst, offset, |q.data| - q.head).value;
      Copy(q.data, 0, d1, |q.data| - q.head, q.head + Min(count, q.size) - |q.data|).Ok?
    ensures var d1 := Copy(q.data, q.head, dst, offset, |q.data| - q.head).value;
      Peek(q, dst, count, offset) ==
        Peeked(Copy(q.data, 0, d1, |q.data| - q.head, q.head + Min(count, q.size) - |q.data|).value, Ok(Min(count, q.size)))
  {
    RemWraps(q.head + Min(count, q.size), |q.data|);
  }

  /** Peek put the k oldest bytes at dst[offset .. offset + k) and left the rest of
      `dst` alone. */
  ghost predicate CopiedOldest(q: Ring, dst: seq<Int8>, offset: int, k: int, d: seq<Int8>)
    requires Inv(q) && 0 <= k <= q.size && 0 <= offset && offset + k <= |dst| == |d|
  {
    d[offset..offset + k] == Contents(q)[..k] &&
    d[..offset] == dst[..offset] && d[offset + k..] == dst[offset + k..]
  }

  lemma PeekCopiesDirect(q: Ring, dst: seq<Int8>, count: int, offset: int)
    requires Inv(q) && !IsEmpty(q)
    requires 1 <= count && 0 <= offset && count + offset <= |dst|
    requires q.head + Min(count, q.size) < |q.data|
    ensures var r := Peek(q, dst, count, offset); var k := Min(count, q.size);
      r.result == Ok(k) && CopiedOldest(q, dst, offset, k, r.dst)
  {
    var k := Min(count, q.size);
    PeekDirect(q, dst, count, offset);
    CopyWrites(q.data, q.head, dst, offset, k);
    var d := Copy(q.data, q.head, dst, offset, k).value;
    assert forall i :: 0 <= i < k ==> d[offset..offset + k][i] == Contents(q)[..k][i];
    assert d[..offset] == dst[..offset];
    assert d[offset + k..] == dst[offset + k..];
  }

  lemma PeekCopiesWrapped(q: Ring, dst: seq<Int8>, count: int)
    requires Inv(q) && !IsEmpty(q)
    requires 1 <= count && count <= |dst|
    requires q.head + Min(count, q.size) >= |q.data|
    ensures var r := Peek(q, dst, count, 0); var k := Min(count, q.size);
      r.result == Ok(k) && CopiedOldest(q, dst, 0, k, r.dst)
  {
    var m := |q.data|;
    var k := Min(count, q.size);
    PeekSplit(q, dst, count, 0);
    var d1 := Copy(q.data, q.head, dst, 0, m - q.head).value;
    var d := Copy(q.data, 0, d1, m - q.head, q.head + k - m).value;
    TwoCopiesReadOldest(q, dst, k, d1, d);
  }

  /** The two copies of a wrapped read put the k oldest bytes at the front. */
  lemma TwoCopiesReadOldest(q: Ring, dst: seq<Int8>, k: int, d1: seq<Int8>, d: seq<Int8>)
    requires Inv(q) && 1 <= k <= q.size && k <= |dst| && q.head + k >= |q.data|
    requires Copy(q.data, q.head, dst, 0, |q.data| - q.head) == Ok(d1)
    requires Copy(q.data, 0, d1, |q.data| - q.head, q.head + k - |q.data|) == Ok(d)
    ensures |d| == |dst| && CopiedOldest(q, dst, 0, k, d)
  {
    var m := |q.data|;
    CopyWrites(q.data, q.head, dst, 0, m - q.head);
    CopyWrites(q.data, 0, d1, m - q.head, q.head + k - m);
    forall i | 0 <= i < k
      ensures d[0..k][i] == Contents(q)[..k][i]
    {
      ContentsAt(q, i);
      if i < m - q.head {
        assert d[i] == d1[i] == q.data[q.head + i];
      } else {
        assert d[i] == q.data[i - (m - q.head)];
      }
    }
    assert d[0..k] == Contents(q)[..k];
    assert d[k..] == dst[k..];
  }

  /** ... and, with the offset at 0 or a read that does not cross the end of the array,
      it copies the k oldest bytes to dst[offset .. offset + k) and leaves the rest of
      `dst` alone. */
  lemma PeekCopiesOldest(q: Ring, dst: seq<Int8>, count: int, offset: int)
    requires Inv(q) && !IsEmpty(q)
    requires 1 <= count && 0 <= offset && count + offset <= |dst|
    requires offset == 0 || q.head + Min(count, q.size) < |q.data|
    ensures var r := Peek(q, dst, count, offset); var k := Min(count, q.size);
      r.result == Ok(k) && r.dst[offset..offset + k] == Contents(q)[..k] &&
      r.dst[..offset] == dst[..offset] && r.dst[offset + k..] == dst[offset + k..]
  {
    if q.head + Min(count, q.size) < |q.data| {
      PeekCopiesDirect(q, dst, count, offset);
    } else {
      PeekCopiesWrapped(q, dst, count);
    }
  }

  /** The queue, the caller's array and the result after pop. */
  datatype Popped = Popped(ring: Ring, dst: seq<Int8>, result: Result<int>)

  /** pop(dst, numberOfElements, dstOffset): peek, then `size` shrinks and `head`
      advances by what was read; onEmpty fires when the queue was not empty before and
      is empty now. */
  function Pop(q: Ring, dst: seq<Int8>, count: int, offset: int): (r: Popped)
    ensures |r.ring.data| == |q.data| && r.ring.data == q.data && r.ring.initialSize == q.initialSize
    ensures r.dst == Peek(q, dst, count, offset).dst
    ensures |q.data| >= 1 ==> r.result == Peek(q, dst, count, offset).result
    ensures |q.data| >= 1 && r.result.Throw? ==> r.ring == q
  {
    var p := Peek(q, dst, count, offset);
    match p.result
    case Throw(e) => Popped(q, p.dst, Throw(e))
    case Ok(k) =>
      if |q.data| == 0 then Popped(q.(size := q.size - k), p.dst, Throw(Arithmetic))
      else
        var wasEmpty := IsEmpty(q);
        var q1 := q.(size := q.size - k, head := Rem(q.head + k, |q.data|));
        Popped(if !wasEmpty && IsEmpty(q1) then FireOnEmpty(q1) else q1, p.dst, Ok(k))
  }

  /** The three outcomes of pop, by what its peek returned. */
  lemma PopCases(q: Ring, dst: seq<Int8>, count: int, offset: int, p: Peeked)
    requires p == Peek(q, dst, count, offset)
    ensures p.result.Throw? ==> Pop(q, dst, count, offset) == Popped(q, p.dst, p.result)
    ensures p.result.Ok? && |q.data| == 0 ==>
      Pop(q, dst, count, offset) == Popped(q.(size := q.size - p.result.value), p.dst, Throw(Arithmetic))
    ensures p.result.Ok? && |q.data| >= 1 ==>
      var q1 := q.(size := q.size - p.result.value, head := Rem(q.head + p.result.value, |q.data|));
      Pop(q, dst, count, offset) == Popped(if !IsEmpty(q) && IsEmpty(q1) then FireOnEmpty(q1) else q1, p.dst, p.result)
  {
  }

  /** The three outcomes of insert's circular write when the bytes run past the end of
      the array, by whether the first copy throws and whether the capacity is 0. */
  lemma InsertWrapCases(q: Ring, src: seq<Int8>, srcFrom: int, srcTo: int, n: int, wasFull: bool,
                        lastData: int, freeSpace: int, d: seq<Int8>)
    requires lastData == Min(|q.data| - q.tail, n) && lastData < n && freeSpace == |q.data| - q.size
    ensures Copy(src, srcFrom, q.data, q.tail, lastData).Throw? ==>
      InsertRing(q, src, srcFrom, srcTo, n, wasFull) == Inserted(q, Throw(IndexOutOfBounds))
    ensures Copy(src, srcFrom, q.data, q.tail, lastData) == Ok(d) && |q.data| == 0 ==>
      InsertRing(q, src, srcFrom, srcTo, n, wasFull) == Inserted(q.(data := d), Throw(Arithmetic))
  {
  }

  /** Insert's circular write, when the bytes run past the end of the array, is the
      first copy and the update of `tail` followed by the last copy. */
  lemma InsertWrapDone(q: Ring, src: seq<Int8>, srcFrom: int, srcTo: int, n: int, wasFull: bool,
                       lastData: int, freeSpace: int, q1: Ring, r: Inserted)
    requires lastData == Min(|q.data| - q.tail, n) && lastData < n && freeSpace == |q.data| - q.size
    requires |q.data| >= 1
    requires Copy(src, srcFrom, q.data, q.tail, lastData) == Ok(q1.data)
    requires q1 == q.(data := q1.data, tail := Rem(q.tail + lastData, |q.data|))
    requires r == InsertLast(q1, src, srcFrom + lastData, srcTo - lastData, n, freeSpace, wasFull)
    ensures InsertRing(q, src, srcFrom, srcTo, n, wasFull) == r
  {
    var d := q1.data;
    assert q.(data := d, tail := Rem(q.tail + lastData, |q.data|)) == q1;
  }

  /** Moving `head` past the k oldest bytes keeps the invariant and drops exactly them. */
  lemma DropOldest(q: Ring, k: int)
    requires Inv(q) && 0 <= k <= q.size
    ensures var q1 := q.(size := q.size - k, head := Wrap(q.head + k, |q.data|));
      Inv(q1) && Contents(q1) == Contents(q)[k..]
  {
    var q1 := q.(size := q.size - k, head := Wrap(q.head + k, |q.data|));
    assert Inv(q1);
    forall i | 0 <= i < q1.size
      ensures Contents(q1)[i] == Contents(q)[k..][i]
    {
      assert Contents(q)[k..][i] == Contents(q)[k + i];
    }
  }

  /** A successful pop on a consistent queue returns the k of peek, removes exactly the
      k oldest bytes, advances `head` by k round the ring, keeps the invariant, and
      notifies Empty exactly when it takes the size from above 0 to 0. */
  lemma PopRemovesOldest(q: Ring, dst: seq<Int8>, count: int, offset: int)
    requires Inv(q)
    ensures var r := Pop(q, dst, count, offset);
      r.result.Ok? ==> 0 <= r.result.value <= q.size && r.ring.size == q.size - r.result.value
    ensures var r := Pop(q, dst, count, offset);
      r.result.Ok? ==> r.ring.head == Wrap(q.head + r.result.value, |q.data|) && r.ring.tail == q.tail
    ensures var r := Pop(q, dst, count, offset);
      r.result.Ok? ==> Inv(r.ring) && Contents(r.ring) == Contents(q)[r.result.value..]
    ensures var r := Pop(q, dst, count, offset);
      r.result.Ok? ==>
        r.ring.events == q.events + (if !IsEmpty(q) && IsEmpty(r.ring) then [Empty(r.ring.head, r.ring.tail, r.ring.size)] else [])
  {
    var p := Peek(q, dst, count, offset);
    PopCases(q, dst, count, offset, p);
    if p.result.Ok? {
      var k := p.result.value;
      var m := |q.data|;
      assert 0 <= k <= q.size;
      RemWraps(q.head + k, m);
      var q1 := q.(size := q.size - k, head := Wrap(q.head + k, m));
      DropOldest(q, k);
      assert Contents(FireOnEmpty(q1)) == Contents(q1);
    }
  }

  /** What may happen to a queue between its construction and a reset: pops and
      clears. */
  datatype Removal = PopBytes(dst: seq<Int8>, count: int, offset: int) | ClearAll

  ghost function ApplyRemovals(q: Ring, removals: seq<Removal>): (r: Ring)
    decreases |removals|
  {
    if |removals| == 0 then q
    else
      var next := match removals[0]
        case PopBytes(dst, count, offset) => Pop(q, dst, count, offset).ring
        case ClearAll => Clear(q);
      ApplyRemovals(next, removals[1..])
  }

  /** Pops and clears never touch the storage or the initial size. */
  lemma {:induction false} RemovalsKeepStorage(q: Ring, removals: seq<Removal>)
    ensures ApplyRemovals(q, removals).data == q.data
    ensures ApplyRemovals(q, removals).initialSize == q.initialSize
    decreases |removals|
  {
    if |removals| > 0 {
      var next := match removals[0]
        case PopBytes(dst, count, offset) => Pop(q, dst, count, offset).ring
        case ClearAll => Clear(q);
      RemovalsKeepStorage(next, removals[1..]);
    }
  }

  /** Any pops and clears on a constructed queue followed by reset() give back exactly
      the bytes the queue was constructed with. */
  lemma ResetAfterRemovalsRestoresInitial(data: seq<Int8>, size: int, removals: seq<Removal>)
    requires 1 <= |data| && 0 <= size <= |data|
    ensures var q := Reset(ApplyRemovals(Initial(data, size).value, removals));
      Inv(q) && Contents(q) == data[..size]
  {
    var q0 := Initial(data, size).value;
    InitialIsConsistent(data, size);
    RemovalsKeepStorage(q0, removals);
    var q := ApplyRemovals(q0, removals);
    assert Reset(q) == Reset(q0).(events := q.events);
    ResetExposesInitialBytes(q0);
    assert Contents(Reset(q)) == Contents(Reset(q0));
  }

  /** Bytes pushed into an empty queue come back out of one pop, in order. */
  lemma PushThenPopReturnsBytes(q: Ring, src: seq<Int8>, dst: seq<Int8>)
    requires Inv(q) && IsEmpty(q) && 1 <= |src| <= |q.data| && |dst| >= |src|
    ensures var pushed := Insert(q, src, 0, |src|, true).ring;
      var r := Pop(pushed, dst, |src|, 0);
      r.result == Ok(|src|) && r.dst[..|src|] == src && IsEmpty(r.ring) && Inv(r.ring)
  {
    PushIntoEmpty(q, src);
    PopEverything(Insert(q, src, 0, |src|, true).ring, dst);
  }

  /** A push into an empty queue that fits leaves exactly the pushed bytes. */
  lemma PushIntoEmpty(q: Ring, src: seq<Int8>)
    requires Inv(q) && IsEmpty(q) && 1 <= |src| <= |q.data|
    ensures var pushed := Insert(q, src, 0, |src|, true).ring;
      Inv(pushed) && Contents(pushed) == src && pushed.size == |src|
  {
    PushOverwritesOldest(q, src, |src|);
    var c := Contents(q);
    assert c == [];
    assert c + src[..|src|] == src;
    LastOfShort(src, |q.data|);
  }

  /** The newest n of at most n elements are all of them. */
  lemma LastOfShort(s: seq<Int8>, n: nat)
    requires |s| <= n
    ensures FlatPush.Last(s, n) == s
  {
  }

  /** A pop of the whole contents returns all of them, oldest first, and empties the
      queue. */
  lemma PopEverything(q: Ring, dst: seq<Int8>)
    requires Inv(q) && 1 <= q.size <= |dst|
    ensures var r := Pop(q, dst, q.size, 0);
      r.result == Ok(q.size) && r.dst[..q.size] == Contents(q) && IsEmpty(r.ring) && Inv(r.ring)
  {
    PeekCopiesOldest(q, dst, q.size, 0);
    PopRemovesOldest(q, dst, q.size, 0);
  }

  // ---------------------------------------------------------------------------
  // The places where the code does not do what its comments describe.

  /** In the wrap branch of insert the second copy has length `srcTo - lastData`, which
      is the remaining count only when srcFrom is 0. Pushing src[1 .. 3) of [1, 2, 3, 4]
      into a queue of capacity 4 whose tail is at 3 copies three bytes instead of two
      and leaves `tail` one slot too far. */
  lemma InsertSecondChunkTooLong()
    ensures var q := Ring([0, 0, 0, 0], 2, 3, 0, 1, []);
      var r := Insert(q, [1, 2, 3, 4], 1, 3, true);
      Inv(q) && r.result == Ok(()) && r.ring.data == [3, 4, 0, 2] &&
      r.ring.tail == 2 && Wrap(r.ring.head + r.ring.size, 4) == 1 && !Inv(r.ring)
  {
    var q := Ring([0, 0, 0, 0], 2, 3, 0, 1, []);
    CopyWrites([1, 2, 3, 4], 1, q.data, 3, 1);
    var d1 := Copy([1, 2, 3, 4], 1, q.data, 3, 1).value;
    assert d1 == [0, 0, 0, 2];
    CopyWrites([1, 2, 3, 4], 2, d1, 0, 2);
    var d2 := Copy([1, 2, 3, 4], 2, d1, 0, 2).value;
    assert d2 == [3, 4, 0, 2];
    RemWraps(4, 4);
    RemWraps(2, 4);
  }

  /** The same length error can run the second copy off the end of `src`: the insert
      throws after the first part has been written and `tail` has moved. */
  lemma InsertThrowsAfterWriting()
    ensures var q := Ring([0, 0, 0, 0], 2, 3, 0, 1, []);
      var r := Insert(q, [1, 2, 3], 1, 3, true);
      Inv(q) && r.result == Throw(IndexOutOfBounds) && r.ring.data == [0, 0, 0, 2] && r.ring.tail == 0
  {
    var q := Ring([0, 0, 0, 0], 2, 3, 0, 1, []);
    CopyWrites([1, 2, 3], 1, q.data, 3, 1);
    var d1 := Copy([1, 2, 3], 1, q.data, 3, 1).value;
    assert d1 == [0, 0, 0, 2];
    RemWraps(4, 4);
  }

  /** With `add` the accepted count is truncated to the free space, but the second copy
      still uses srcTo: adding [5, 6, 7] to the queue [2, 3] of capacity 4 (head 1,
      tail 3) overwrites the oldest queued byte, so the four bytes from `head` become
      [7, 3, 5, 6] instead of [2, 3, 5, 6], and `tail` (slot 2) no longer denotes the
      slot after them. */
  lemma AddOverwritesOldestByte()
    ensures var q := Ring([1, 2, 3, 4], 1, 3, 0, 2, []);
      var r := Insert(q, [5, 6, 7], 0, 3, false);
      Inv(q) && Contents(q) == [2, 3] && r.result == Ok(()) && r.ring.head == 1 && r.ring.size == 4 &&
      Contents(r.ring) == [7, 3, 5, 6] && !Inv(r.ring)
  {
    var q := Ring([1, 2, 3, 4], 1, 3, 0, 2, []);
    assert Contents(q)[0] == 2 && Contents(q)[1] == 3;
    CopyWrites([5, 6, 7], 0, q.data, 3, 1);
    var d1 := Copy([5, 6, 7], 0, q.data, 3, 1).value;
    assert d1 == [1, 2, 3, 5];
    CopyWrites([5, 6, 7], 1, d1, 0, 2);
    var d2 := Copy([5, 6, 7], 1, d1, 0, 2).value;
    assert d2 == [6, 7, 3, 5];
    RemWraps(4, 4);
    RemWraps(2, 4);
    var r := Insert(q, [5, 6, 7], 0, 3, false);
    assert r.ring.data == d2 && r.ring.head == 1 && r.ring.tail == 2;
    var c := Contents(r.ring);
    assert c[0] == 7 && c[1] == 3 && c[2] == 5 && c[3] == 6;
  }

  /** In a wrapped read the second part lands at dst[lastData] instead of
      dst[offset + lastData]: peeking all of the full queue [3, 4, 1, 2] (head 2) at
      offset 1 into five zero bytes yields [0, 3, 1, 2, 0]. */
  lemma PeekWrappedAtOffsetMisplaces()
    ensures var q := Ring([1, 2, 3, 4], 2, 2, 0, 4, []);
      var r := Peek(q, [0, 0, 0, 0, 0], 4, 1);
      Inv(q) && Contents(q) == [3, 4, 1, 2] && r == Peeked([0, 3, 1, 2, 0], Ok(4))
  {
    var q := Ring([1, 2, 3, 4], 2, 2, 0, 4, []);
    var c := Contents(q);
    assert c[0] == 3 && c[1] == 4 && c[2] == 1 && c[3] == 2;
    CopyWrites(q.data, 2, [0, 0, 0, 0, 0], 1, 2);
    var d1 := Copy(q.data, 2, [0, 0, 0, 0, 0], 1, 2).value;
    assert d1 == [0, 3, 4, 0, 0];
    CopyWrites(q.data, 0, d1, 2, 2);
    var d2 := Copy(q.data, 0, d1, 2, 2).value;
    assert d2 == [0, 3, 1, 2, 0];
    RemWraps(6, 4);
  }

  /** A request for zero bytes from a non-empty queue still takes the split branch and
      copies capacity - head bytes, so it throws on an empty destination. */
  lemma PeekZeroCountThrows()
    ensures var q := Ring([1, 2, 3, 4], 2, 2, 0, 4, []);
      Inv(q) && Peek(q, [], 0, 0) == Peeked([], Throw(IndexOutOfBounds))
  {
    RemWraps(2, 4);
  }
}
