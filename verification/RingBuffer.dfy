/**
  The ring buffer: two positions and a wrap flag over a fixed block of elements.

  It refines a tape that is never overwritten. Everything ever written is on the tape in order, with
  zeros before the first element; the read index may lag behind the write index by at most the size
  of the block, and may be moved back over elements that have been read already.
 */
module RingBuffer {
  import opened Bytes

  datatype Wrap = SameWrap | DiffWrap

  /** Where the elements of a read are: nowhere, in the block from `start` on, or in the caller's array. */
  datatype Place = Nowhere | InBlock(start: nat) | InData

  class RingBuffer<T(0, ==)> {
    const elementCount: nat
    const data: array<T>
    const zero: T
    var readPos: nat
    var writePos: nat
    var wrap: Wrap

    ghost var tape: seq<T>
    ghost var readIndex: int

    ghost function TapeAt(i: int): T
      reads this
    {
      if 0 <= i < |tape| then tape[i] else zero
    }

    /** The elements from index `i` on. */
    ghost function Stretch(i: int, n: nat): (s: seq<T>)
      reads this
      ensures |s| == n && forall t | 0 <= t < n :: s[t] == TapeAt(i + t)
    {
      seq(n, t reads this => TapeAt(i + t))
    }

    /** The tape index of the element at place `k` of the block. */
    ghost function IndexAt(k: nat): int
      reads this
    {
      |tape| - writePos + k - if k < writePos then 0 else elementCount
    }

    ghost predicate Valid()
      reads this, data
    {
      && elementCount == data.Length > 0
      && readPos <= elementCount && writePos <= elementCount
      && 0 <= |tape| - readIndex <= elementCount
      && |tape| - readIndex == (if wrap.SameWrap? then writePos - readPos else elementCount - readPos + writePos)
      && forall k | 0 <= k < elementCount :: data[k] == TapeAt(IndexAt(k))
    }

    constructor (elementCount: nat, zero: T)
      requires elementCount > 0
      ensures Valid() && fresh(data) && this.elementCount == elementCount && this.zero == zero
      ensures tape == [] && readIndex == 0
    {
      this.elementCount, this.zero := elementCount, zero;
      data := new T[elementCount](_ => zero);
      readPos, writePos, wrap := 0, 0, SameWrap;
      tape, readIndex := [], 0;
    }

    function AvailableRead(): (n: nat)
      requires Valid()
      reads this, data
      ensures n == |tape| - readIndex
    {
      if wrap == SameWrap then writePos - readPos else elementCount - readPos + writePos
    }

    function AvailableWrite(): (n: nat)
      requires Valid()
      reads this, data
      ensures n == elementCount - (|tape| - readIndex)
    {
      elementCount - AvailableRead()
    }

    /** Moves the read index by `count`, but not past what has been written, and not so far back that
        an element would have been overwritten. */
    method MoveReadPtr(count: int) returns (moved: int)
      requires Valid()
      modifies this`readPos, this`wrap, this`readIndex
      ensures Valid()
      ensures moved == if count > |tape| - old(readIndex) then |tape| - old(readIndex)
                       else if count < |tape| - elementCount - old(readIndex) then |tape| - elementCount - old(readIndex)
                       else count
      ensures readIndex == old(readIndex) + moved
    {
      var free: int, readable: int := AvailableWrite(), AvailableRead();
      moved := count;
      if moved > readable { moved := readable; }
      if moved < -free { moved := -free; }
      var pos: int := readPos + moved;
      if pos > elementCount {
        pos := pos - elementCount;
        wrap := SameWrap;
      }
      if pos < 0 {
        pos := pos + elementCount;
        wrap := DiffWrap;
      }
      readPos := pos;
      readIndex := readIndex + moved;
    }

    /** The first region of the block has the next elements of the tape. */
    lemma RegionIsStretch(n: nat)
      requires Valid() && n <= AvailableRead() && n <= elementCount - readPos
      ensures data[readPos..readPos + n] == Stretch(readIndex, n)
    {
    }

    /** `memcpy` of the next elements, from one region or from two. */
    method CopyOut(dst: array<T>, n: nat)
      requires Valid() && dst != data && n <= AvailableRead() && n <= dst.Length
      modifies dst
      ensures dst[..n] == Stretch(readIndex, n)
    {
      var margin := elementCount - readPos;
      if n > margin {
        forall i | 0 <= i < margin { dst[i] := data[readPos + i]; }
        forall i | 0 <= i < n - margin { dst[margin + i] := data[i]; }
      } else {
        forall i | 0 <= i < n { dst[i] := data[readPos + i]; }
      }
    }

    /** The next elements of the tape, from one region of the block or copied together from two. */
    method Read(dst: array?<T>, wantPointer: bool, count: nat) returns (n: nat, place: Place)
      requires Valid() && dst != data && (dst != null ==> count <= dst.Length)
      modifies this`readPos, this`wrap, this`readIndex
      modifies if dst == null then {} else {dst}
      ensures Valid()
      ensures n == if dst == null then 0 else Min(count, |tape| - old(readIndex))
      ensures readIndex == old(readIndex) + n
      ensures place.Nowhere? <==> n == 0 && (wantPointer || dst == null)
      ensures place.InBlock? ==> wantPointer && place.start + n <= elementCount
                                 && data[place.start..place.start + n] == Stretch(old(readIndex), n)
      ensures place.InData? ==> dst != null && n <= dst.Length && dst[..n] == Stretch(old(readIndex), n)
    {
      if dst == null {
        return 0, Nowhere;
      }
      hide RingBuffer.Stretch, RingBuffer.TapeAt;
      n := Min(AvailableRead(), count);
      if n > elementCount - readPos || !wantPointer {
        CopyOut(dst, n);
        place := InData;
      } else {
        RegionIsStretch(n);
        place := if n == 0 then Nowhere else InBlock(readPos);
      }
      var moved := MoveReadPtr(n);
    }

    /** Appends as many elements to the tape as are free to be overwritten. */
    method Write(src: seq<T>) returns (n: nat)
      requires Valid()
      modifies this`writePos, this`wrap, this`tape, data
      ensures Valid()
      ensures n == Min(|src|, elementCount - (old(|tape|) - readIndex))
      ensures tape == old(tape) + src[..n]
    {
      n := Min(AvailableWrite(), |src|);
      var left, margin := n, elementCount - writePos;
      if n > margin {
        FillToEnd(src[..margin]);
        left := n - margin;
      }
      CopyIn(src[n - left..n]);
      assert src[..n - left] + src[n - left..n] == src[..n];
    }

    /** The rest of the block is filled, and writing goes on at its start. */
    method FillToEnd(run: seq<T>)
      requires Valid() && |run| == elementCount - writePos && |run| < AvailableWrite()
      modifies this`writePos, this`wrap, this`tape, data
      ensures Valid()
      ensures tape == old(tape) + run && writePos == 0
    {
      CopyIn(run);
      writePos := 0;
      wrap := DiffWrap;
    }

    /** `memcpy` of a run that fits behind the write position. */
    method CopyIn(run: seq<T>)
      requires Valid() && |run| <= elementCount - writePos && |run| <= AvailableWrite()
      modifies this`writePos, this`tape, data
      ensures Valid()
      ensures tape == old(tape) + run && writePos == old(writePos) + |run|
    {
      forall i | 0 <= i < |run| { data[writePos + i] := run[i]; }
      writePos := writePos + |run|;
      tape := tape + run;
    }
  }

  /** No buffer for no elements. */
  method Create<T(0)>(elementCount: nat, zero: T) returns (buffer: RingBuffer?<T>)
    ensures buffer == null <==> elementCount == 0
    ensures buffer != null ==>
      && fresh(buffer) && buffer.Valid() && buffer.elementCount == elementCount && buffer.zero == zero
      && buffer.tape == [] && buffer.readIndex == 0
  {
    if elementCount == 0 {
      return null;
    }
    buffer := new RingBuffer<T>(elementCount, zero);
  }
}
