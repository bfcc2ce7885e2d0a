/** The first version of com.antoniovm.util.raw.Queue: a byte array and a size. Its
    static push differs from the later one in two arraycopy calls: the displacement
    copies `dstSize` bytes instead of `dstSize - displaced`, and the final copy has its
    source and destination swapped, so the bytes flow from the queue into the caller's
    array. Both are modelled as written. */
module LegacyQueue {
  import opened Java

  /** Both arrays after the static push, and what it returned or threw. */
  datatype Pushed = Pushed(src: seq<Int8>, dst: seq<Int8>, result: Result<int>)

  /** The last arraycopy of the static push, with `dst` as the source array and `src`
      as the destination. */
  function CopyBack(src: seq<Int8>, srcFrom: int, n: int, dst: seq<Int8>, dstSize: int, remaining: int): (r: Pushed)
    ensures |r.src| == |src| && r.dst == dst
    ensures r.result.Ok? ==> r.result.value == remaining
  {
    match Copy(dst, dstSize, src, srcFrom, n)
    case Throw(e) => Pushed(src, dst, Throw(e))
    case Ok(s) => Pushed(s, dst, Ok(remaining))
  }

  /** The static push(src, srcFrom, srcTo, dst, dstSize) as written. */
  function StaticPush(src: seq<Int8>, srcFrom: int, srcTo: int, dst: seq<Int8>, dstSize: int): (r: Pushed)
    ensures |r.src| == |src| && |r.dst| == |dst|
    ensures srcTo - srcFrom < 1 ==> r == Pushed(src, dst, Throw(IllegalArgument))
    ensures r.result.Ok? ==> r.result.value == |dst| - (srcTo - srcFrom)
  {
    var n := srcTo - srcFrom;
    if n < 1 then
      Pushed(src, dst, Throw(IllegalArgument))
    else
      var remaining := |dst| - n;
      if n > |dst| then
        match Copy(src, srcTo - |dst|, dst, 0, |dst|)
        case Throw(e) => Pushed(src, dst, Throw(e))
        case Ok(d) => Pushed(src, d, Ok(remaining))
      else
        var displace := dstSize + n - |dst|;
        if displace > 0 then
          match Copy(dst, displace, dst, 0, dstSize)
          case Throw(e) => Pushed(src, dst, Throw(e))
          case Ok(shifted) => CopyBack(src, srcFrom, n, shifted, dstSize - displace, remaining)
        else
          CopyBack(src, srcFrom, n, dst, dstSize, remaining)
  }

  /** A slice longer than `dst` is handled as in the later version: the last
      `dst.length` bytes of the slice replace `dst`, and `src` is untouched. */
  lemma PushTruncates(src: seq<Int8>, srcFrom: int, srcTo: int, dst: seq<Int8>, dstSize: int)
    requires srcTo - srcFrom > |dst|
    requires 0 <= srcTo - |dst| && srcTo <= |src|
    ensures StaticPush(src, srcFrom, srcTo, dst, dstSize) == Pushed(src, src[srcTo - |dst|..srcTo], Ok(|dst| - (srcTo - srcFrom)))
  {
  }

  /** When the slice fits without displacement, the final copy reads `dst` and writes
      `src`: src[srcFrom .. srcTo) receives dst[dstSize .. dstSize + n) and `dst` keeps
      its contents, so the pushed bytes never reach the queue. */
  lemma PushCopiesBackwards(src: seq<Int8>, srcFrom: int, srcTo: int, dst: seq<Int8>, dstSize: int)
    requires 0 <= srcFrom < srcTo <= |src|
    requires 0 <= dstSize && dstSize + (srcTo - srcFrom) <= |dst|
    ensures StaticPush(src, srcFrom, srcTo, dst, dstSize) ==
      Pushed(src[..srcFrom] + dst[dstSize..dstSize + (srcTo - srcFrom)] + src[srcTo..], dst, Ok(|dst| - (srcTo - srcFrom)))
  {
    var n := srcTo - srcFrom;
    var r := StaticPush(src, srcFrom, srcTo, dst, dstSize);
    assert r.src == src[..srcFrom] + dst[dstSize..dstSize + n] + src[srcTo..];
  }

  /** The displacement copy moves `dstSize` bytes starting at the displacement, so it
      stays inside `dst` only when displacement plus `dstSize` is at most `dst.length`;
      otherwise the push throws with both arrays unchanged. */
  lemma DisplacementInBounds(src: seq<Int8>, srcFrom: int, srcTo: int, dst: seq<Int8>, dstSize: int)
    requires 1 <= srcTo - srcFrom <= |dst|
    requires dstSize + (srcTo - srcFrom) - |dst| > 0
    ensures var displace := dstSize + (srcTo - srcFrom) - |dst|;
      var r := StaticPush(src, srcFrom, srcTo, dst, dstSize);
      (displace + dstSize > |dst| ==> r == Pushed(src, dst, Throw(IndexOutOfBounds))) &&
      (displace + dstSize <= |dst| ==>
         r.dst[..dstSize] == dst[displace..displace + dstSize] && r.dst[dstSize..] == dst[dstSize..])
  {
    var displace := dstSize + (srcTo - srcFrom) - |dst|;
    var r := StaticPush(src, srcFrom, srcTo, dst, dstSize);
    if displace + dstSize <= |dst| {
      var shifted := Copy(dst, displace, dst, 0, dstSize).value;
      assert r.dst == shifted;
      assert shifted[..dstSize] == dst[displace..displace + dstSize];
    }
  }

  /** Pushing a slice that fits into a full queue always throws, leaving both arrays
      unchanged: the displacement equals the slice length, so the displacement copy
      runs past the end of `dst`. */
  lemma PushOntoFullThrows(src: seq<Int8>, srcFrom: int, srcTo: int, dst: seq<Int8>)
    requires 1 <= srcTo - srcFrom <= |dst|
    ensures StaticPush(src, srcFrom, srcTo, dst, |dst|) == Pushed(src, dst, Throw(IndexOutOfBounds))
  {
    DisplacementInBounds(src, srcFrom, srcTo, dst, |dst|);
  }

  /** The fields of the queue as values. */
  datatype Legacy = Legacy(data: seq<Int8>, size: int)

  /** The queue and the caller's array after the instance push(src, srcFrom, srcTo). */
  datatype Outcome = Outcome(q: Legacy, src: seq<Int8>, result: Result<int>)

  /** The instance push: the static push into the queue's array, then the size grows by
      the slice length, saturating at the array length. */
  function PushOnto(q: Legacy, src: seq<Int8>, srcFrom: int, srcTo: int): (r: Outcome)
    ensures |r.q.data| == |q.data| && |r.src| == |src|
    ensures r.result.Throw? ==> r.q.size == q.size
    ensures r.result.Ok? ==> r.q.size == Min(|q.data|, q.size + (srcTo - srcFrom))
  {
    var p := StaticPush(src, srcFrom, srcTo, q.data, q.size);
    if p.result.Throw? then
      Outcome(q.(data := p.dst), p.src, p.result)
    else
      var totalNewBytes := srcTo - srcFrom;
      var size := if totalNewBytes + q.size > |q.data| then |q.data| else q.size + totalNewBytes;
      Outcome(Legacy(p.dst, size), p.src, p.result)
  }

  /** The queue's size stays within its array across any successful push, provided it
      started there. */
  lemma PushKeepsSizeInRange(q: Legacy, src: seq<Int8>, srcFrom: int, srcTo: int)
    requires 0 <= q.size <= |q.data|
    ensures var r := PushOnto(q, src, srcFrom, srcTo);
      0 <= r.q.size <= |r.q.data| && (r.result.Ok? ==> r.q.size >= q.size)
  {
  }

  class Queue {
    var data: array<Int8>
    var size: int

    ghost function State(): Legacy
      reads this, data
    {
      Legacy(data[..], size)
    }

    /** Queue(data, size, copy): throws when `size` exceeds the array length. */
    static method New(data: array<Int8>, size: int, copy: bool) returns (r: Result<Queue>)
      ensures r.Throw? <==> size > data.Length
      ensures r.Throw? ==> r.exception == IndexOutOfBounds
      ensures r.Ok? ==> fresh(r.value) && r.value.State() == Legacy(data[..], size)
      ensures r.Ok? ==> if copy then fresh(r.value.data) else r.value.data == data
    {
      if size > data.Length {
        return Throw(IndexOutOfBounds);
      }
      var q := new Queue.Init(data, size, copy);
      return Ok(q);
    }

    constructor Init(data: array<Int8>, size: int, copy: bool)
      requires size <= data.Length
      ensures State() == Legacy(data[..], size)
      ensures if copy then fresh(this.data) else this.data == data
    {
      this.size := size;
      if copy {
        var a := new Int8[data.Length];
        forall i | 0 <= i < data.Length {
          a[i] := data[i];
        }
        this.data := a;
      } else {
        this.data := data;
      }
    }

    /** Queue(data, size): the queue over `data` itself. */
    static method WithSize(data: array<Int8>, size: int) returns (r: Result<Queue>)
      ensures r.Throw? <==> size > data.Length
      ensures r.Throw? ==> r.exception == IndexOutOfBounds
      ensures r.Ok? ==> fresh(r.value) && r.value.data == data && r.value.State() == Legacy(data[..], size)
    {
      r := New(data, size, false);
    }

    /** Queue(data): the array with size 0. */
    static method FromArray(data: array<Int8>) returns (q: Queue)
      ensures fresh(q) && q.data == data && q.State() == Legacy(data[..], 0)
    {
      q := new Queue.Init(data, 0, false);
    }

    /** Queue(capacity): a zero-filled array and size 0; a negative capacity fails
        when the array is created. */
    static method WithCapacity(capacity: int) returns (r: Result<Queue>)
      ensures r.Throw? <==> capacity < 0
      ensures r.Throw? ==> r.exception == NegativeArraySize
      ensures r.Ok? ==> fresh(r.value) && fresh(r.value.data) && r.value.State() == Legacy(seq(capacity, _ => 0), 0)
    {
      if capacity < 0 {
        return Throw(NegativeArraySize);
      }
      var data := new Int8[capacity](_ => 0);
      var q := FromArray(data);
      return Ok(q);
    }

    /** The static push on arrays; `src` and `dst` are different arrays. */
    static method PushInto(src: array<Int8>, srcFrom: int, srcTo: int, dst: array<Int8>, dstSize: int) returns (r: Result<int>)
      requires src != dst
      modifies src, dst
      ensures Pushed(src[..], dst[..], r) == StaticPush(old(src[..]), srcFrom, srcTo, old(dst[..]), dstSize)
    {
      ghost var src0, dst0 := src[..], dst[..];
      var numberOfBytesToRead := srcTo - srcFrom;
      if numberOfBytesToRead < 1 {
        return Throw(IllegalArgument);
      }
      var remainingBytes := dst.Length - numberOfBytesToRead;
      if numberOfBytesToRead > dst.Length {
        numberOfBytesToRead := dst.Length;
        var c := ArrayCopy(src, srcTo - numberOfBytesToRead, dst, 0, numberOfBytesToRead);
        if c.Throw? {
          return Throw(c.exception);
        }
        return Ok(remainingBytes);
      }
      var size := dstSize;
      var numberOfBytesToDisplace := (size + numberOfBytesToRead) - dst.Length;
      if numberOfBytesToDisplace > 0 {
        var c := ArrayCopy(dst, numberOfBytesToDisplace, dst, 0, size);
        if c.Throw? {
          assert StaticPush(src0, srcFrom, srcTo, dst0, dstSize) == Pushed(src0, dst0, Throw(c.exception));
          return Throw(c.exception);
        }
        assert dst[..] == Copy(dst0, numberOfBytesToDisplace, dst0, 0, size).value;
        size := size - numberOfBytesToDisplace;
      }
      assert src[..] == src0;
      assert StaticPush(src0, srcFrom, srcTo, dst0, dstSize) ==
        CopyBack(src0, srcFrom, numberOfBytesToRead, dst[..], size, remainingBytes);
      r := CopyBackInto(dst, size, src, srcFrom, numberOfBytesToRead, remainingBytes);
    }

    /** The last arraycopy of the static push, from `dst` back into `src`. */
    static method CopyBackInto(dst: array<Int8>, dstSize: int, src: array<Int8>, srcFrom: int, n: int, remaining: int)
      returns (r: Result<int>)
      requires src != dst
      modifies src
      ensures Pushed(src[..], dst[..], r) == CopyBack(old(src[..]), srcFrom, n, dst[..], dstSize, remaining)
    {
      var c := ArrayCopy(dst, dstSize, src, srcFrom, n);
      if c.Throw? {
        return Throw(c.exception);
      }
      return Ok(remaining);
    }

    /** push(src, dst, dstSize): the whole of `src`. */
    static method PushAllInto(src: array<Int8>, dst: array<Int8>, dstSize: int) returns (r: Result<int>)
      requires src != dst
      modifies src, dst
      ensures Pushed(src[..], dst[..], r) == StaticPush(old(src[..]), 0, src.Length, old(dst[..]), dstSize)
    {
      r := PushInto(src, 0, src.Length, dst, dstSize);
    }

    /** The instance push(src, srcFrom, srcTo). */
    method Push(src: array<Int8>, srcFrom: int, srcTo: int) returns (r: Result<int>)
      requires src != data
      modifies this, src, data
      ensures data == old(data)
      ensures Outcome(State(), src[..], r) == PushOnto(old(State()), old(src[..]), srcFrom, srcTo)
    {
      r := PushInto(src, srcFrom, srcTo, data, size);
      if r.Throw? {
        return;
      }
      var totalNewBytes := srcTo - srcFrom;
      if totalNewBytes + size > data.Length {
        size := data.Length;
      } else {
        size := size + totalNewBytes;
      }
    }

    /** push(src): the whole of `src`. */
    method PushAll(src: array<Int8>) returns (r: Result<int>)
      requires src != data
      modifies this, src, data
      ensures data == old(data)
      ensures Outcome(State(), src[..], r) == PushOnto(old(State()), old(src[..]), 0, src.Length)
    {
      r := Push(src, 0, src.Length);
    }

    function GetData(): (a: array<Int8>)
      reads this
      ensures a == data
    {
      data
    }

    /** setData(data, size): both fields are replaced, unchecked. */
    method SetData(data: array<Int8>, size: int)
      modifies this
      ensures this.data == data && this.size == size
    {
      this.data := data;
      this.size := size;
    }

    /** setSize(size): unchecked. */
    method SetSize(size: int)
      modifies this
      ensures this.data == old(this.data) && this.size == size
    {
      this.size := size;
    }

    function GetSize(): (s: int)
      reads this
      ensures s == size
    {
      size
    }
  }
}
