/** The static `push(src, srcFrom, srcTo, dst, dstSize)` shared by both queue classes:
    it appends src[srcFrom .. srcTo) to the first `dstSize` bytes of `dst`, shifting the
    oldest bytes out of the front when the slice does not fit, and keeps only the newest
    `dst.length` bytes when the slice alone is longer than `dst`. */
module FlatPush {
  import opened Java

  /** The newest (last) `n` elements of `s`, or all of `s` when it is shorter. */
  function Last<T>(s: seq<T>, n: nat): (r: seq<T>)
    ensures |r| == Min(|s|, n)
    ensures forall i :: 0 <= i < |r| ==> r[i] == s[|s| - |r| + i]
  {
    if |s| <= n then s else s[|s| - n..]
  }

  /** When the slice s[from .. to) alone has at least `n` elements, the newest `n` of
      a + s[from .. to) are the last `n` of that slice. */
  lemma LastOfLongSlice<T>(a: seq<T>, s: seq<T>, from: int, to: int, n: nat)
    requires 0 <= from <= to <= |s| && to - from >= n
    ensures Last(a + s[from..to], n) == s[to - n..to]
  {
    var b := s[from..to];
    assert (a + b)[|a + b| - n..] == b[|b| - n..];
    assert b[|b| - n..] == s[to - n..to];
  }

  /** The destination array after a push, and what the call returned or threw. */
  datatype Pushed = Pushed(dst: seq<Int8>, result: Result<int>)

  /** One System.arraycopy into `dst`, returning `remaining` when it succeeds. */
  function CopyThenReturn(src: seq<Int8>, srcPos: int, dst: seq<Int8>, dstPos: int, length: int, remaining: int): (r: Pushed)
    ensures |r.dst| == |dst|
    ensures r.result.Ok? ==> r.result.value == remaining
  {
    match Copy(src, srcPos, dst, dstPos, length)
    case Throw(e) => Pushed(dst, Throw(e))
    case Ok(d) => Pushed(d, Ok(remaining))
  }

  /** The static push as written. The result is `dst.length - (srcTo - srcFrom)`, negative
      when that many bytes of the slice were dropped. */
  function Push(src: seq<Int8>, srcFrom: int, srcTo: int, dst: seq<Int8>, dstSize: int): (r: Pushed)
    ensures |r.dst| == |dst|
    ensures srcTo - srcFrom < 1 ==> r == Pushed(dst, Throw(IllegalArgument))
    ensures r.result.Ok? ==> r.result.value == |dst| - (srcTo - srcFrom)
  {
    var n := srcTo - srcFrom;
    if n < 1 then
      Pushed(dst, Throw(IllegalArgument))
    else
      var remaining := |dst| - n;
      if n > |dst| then
        CopyThenReturn(src, srcTo - |dst|, dst, 0, |dst|, remaining)
      else
        var displace := dstSize + n - |dst|;
        if displace > 0 then
          match Copy(dst, displace, dst, 0, dstSize - displace)
          case Throw(e) => Pushed(dst, Throw(e))
          case Ok(shifted) => CopyThenReturn(src, srcFrom, shifted, dstSize - displace, n, remaining)
        else
          CopyThenReturn(src, srcFrom, dst, dstSize, n, remaining)
  }

  /** Exactly when a push with a non-empty range returns normally: when the slice is
      longer than `dst` only its last `dst.length` bytes need to lie inside `src`
      (`srcFrom` itself is never checked then); otherwise the whole slice must lie inside
      `src` and `dstSize` must lie inside `dst`. */
  lemma PushSucceeds(src: seq<Int8>, srcFrom: int, srcTo: int, dst: seq<Int8>, dstSize: int)
    requires srcTo - srcFrom >= 1
    ensures Push(src, srcFrom, srcTo, dst, dstSize).result.Ok? <==>
      if srcTo - srcFrom > |dst| then 0 <= srcTo - |dst| && srcTo <= |src|
      else 0 <= srcFrom && srcTo <= |src| && 0 <= dstSize && dstSize <= |dst|
  {
  }

  /** What a successful push leaves in `dst`: the old first `dstSize` bytes followed by
      the slice, cut down to the newest `dst.length` bytes, with the untouched tail of
      `dst` behind them when everything fits. */
  lemma PushKeepsNewest(src: seq<Int8>, srcFrom: int, srcTo: int, dst: seq<Int8>, dstSize: int)
    requires 0 <= srcFrom < srcTo <= |src|
    requires 0 <= dstSize <= |dst|
    ensures var r := Push(src, srcFrom, srcTo, dst, dstSize);
      var joined := dst[..dstSize] + src[srcFrom..srcTo];
      r.result == Ok(|dst| - (srcTo - srcFrom)) &&
      r.dst == if |joined| >= |dst| then Last(joined, |dst|) else joined + dst[|joined|..]
  {
    var r := Push(src, srcFrom, srcTo, dst, dstSize);
    var joined := dst[..dstSize] + src[srcFrom..srcTo];
    var n := srcTo - srcFrom;
    PushSucceeds(src, srcFrom, srcTo, dst, dstSize);
    if n > |dst| {
      assert r.dst == Last(joined, |dst|);
    } else if dstSize + n - |dst| > 0 {
      assert r.dst == Last(joined, |dst|);
    } else {
      assert r.dst == joined + dst[|joined|..];
    }
  }

  /** One System.arraycopy followed by `return remaining`, the ending shared by the two
      copying paths of the static push. */
  method CopyReturning(src: array<Int8>, srcPos: int, dst: array<Int8>, dstPos: int, length: int, remaining: int)
    returns (r: Result<int>)
    modifies dst
    ensures Pushed(dst[..], r) == CopyThenReturn(old(src[..]), srcPos, old(dst[..]), dstPos, length, remaining)
  {
    var c := ArrayCopy(src, srcPos, dst, dstPos, length);
    if c.Throw? {
      return Throw(c.exception);
    }
    return Ok(remaining);
  }

  /** push(src, dst, dstSize): the static push of the whole of `src`. */
  method PushAllInto(src: array<Int8>, dst: array<Int8>, dstSize: int) returns (r: Result<int>)
    requires src != dst
    modifies dst
    ensures Pushed(dst[..], r) == Push(old(src[..]), 0, src.Length, old(dst[..]), dstSize)
  {
    r := PushInto(src, 0, src.Length, dst, dstSize);
  }

  /** The static push on arrays; `src` and `dst` are different arrays. */
  method PushInto(src: array<Int8>, srcFrom: int, srcTo: int, dst: array<Int8>, dstSize: int) returns (r: Result<int>)
    requires src != dst
    modifies dst
    ensures Pushed(dst[..], r) == Push(old(src[..]), srcFrom, srcTo, old(dst[..]), dstSize)
  {
    var numberOfBytesToRead := srcTo - srcFrom;
    if numberOfBytesToRead < 1 {
      return Throw(IllegalArgument);
    }
    var remainingBytes := dst.Length - numberOfBytesToRead;
    if numberOfBytesToRead > dst.Length {
      numberOfBytesToRead := dst.Length;
      r := CopyReturning(src, srcTo - numberOfBytesToRead, dst, 0, numberOfBytesToRead, remainingBytes);
      return;
    }
    r := PushFitting(src, srcFrom, srcTo, dst, dstSize);
  }

  /** The rest of the static push once the slice is known to be no longer than `dst`:
      shift out the oldest bytes that would not fit, then copy the slice behind the rest. */
  method PushFitting(src: array<Int8>, srcFrom: int, srcTo: int, dst: array<Int8>, dstSize: int) returns (r: Result<int>)
    requires src != dst
    requires 1 <= srcTo - srcFrom <= dst.Length
    modifies dst
    ensures Pushed(dst[..], r) == Push(old(src[..]), srcFrom, srcTo, old(dst[..]), dstSize)
  {
    var numberOfBytesToRead := srcTo - srcFrom;
    var remainingBytes := dst.Length - numberOfBytesToRead;
    var size := dstSize;
    var numberOfBytesToDisplace := (size + numberOfBytesToRead) - dst.Length;
    if numberOfBytesToDisplace > 0 {
      var c := ArrayCopy(dst, numberOfBytesToDisplace, dst, 0, size - numberOfBytesToDisplace);
      if c.Throw? {
        return Throw(c.exception);
      }
      size := size - numberOfBytesToDisplace;
    }
    r := CopyReturning(src, srcFrom, dst, size, numberOfBytesToRead, remainingBytes);
  }
}
