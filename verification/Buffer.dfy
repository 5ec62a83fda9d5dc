/** The growing byte buffer under both framers. */
module Buffers {
  import opened Basics

  /** Sizes that leave room for the largest growth step in 32 bits. */
  const MAX_SIZE: nat := TWO32 - 4097

  /** Room to allocate for `bufSize` bytes. */
  function CapcityAdj(bufSize: nat): (cap: nat)
    ensures bufSize == 0 ==> cap == 0
    ensures bufSize > 0 ==> bufSize < cap <= bufSize + 4096
  {
    if bufSize == 0 then 0
    else if bufSize <= 32 then bufSize + 4
    else if bufSize <= 4096 then bufSize * 2
    else bufSize + 4096
  }

  /** Where the rule of growth changes. */
  lemma GrowthSteps()
    ensures CapcityAdj(1) == 5 && CapcityAdj(32) == 36 && CapcityAdj(33) == 66
    ensures CapcityAdj(4096) == 8192 && CapcityAdj(4097) == 8193
    ensures forall n: nat | n > 4096 :: CapcityAdj(n) == n + 4096
  {
  }

  class Buffer {
    var data: array?<uint8>
    var size: nat
    var capacity: nat
    var readPos: nat

    ghost predicate Valid()
      reads this, data
    {
      if data == null then size == 0 && capacity == 0
      else 0 < capacity == data.Length && size <= capacity
    }

    /** The bytes in use. */
    ghost function Contents(): (c: Bytes)
      requires Valid()
      reads this, data
      ensures |c| == size
    {
      if data == null then [] else data[..size]
    }

    constructor ()
      ensures Valid() && data == null && readPos == 0
    {
      data, size, capacity, readPos := null, 0, 0, 0;
    }

    /** A fresh array with room for `n` bytes that starts with `a` and then `b`. */
    method Filled(n: nat, a: Bytes, b: Bytes) returns (newData: array<uint8>)
      requires |a| + |b| <= n
      ensures fresh(newData) && newData.Length == n && newData[..|a| + |b|] == a + b
    {
      newData := new uint8[n];
      Copy(newData, 0, a);
      assert newData[..][..|a|] == a;
      Copy(newData, |a|, b);
      assert newData[..] == a + b + newData[|a| + |b|..];
    }

    /** Appends; a null pointer counts as no bytes. */
    method Append(src: Bytes)
      requires Valid() && size + |src| <= MAX_SIZE
      modifies this, data
      ensures Valid() && Contents() == old(Contents()) + src && readPos == old(readPos)
      ensures data == old(data) || fresh(data)
    {
      if |src| == 0 { return; }
      var reserveSize := capacity - size;
      if |src| <= reserveSize {
        Copy(data, size, src);
        assert data[..][..size + |src|] == old(data[..size]) + src;
        size := size + |src|;
        return;
      }
      var cap := CapcityAdj(size + |src|);
      var newData := Filled(cap, if data == null then [] else data[..size], src);
      data := newData;
      size := size + |src|;
      capacity := cap;
    }

    /** Replaces the contents; `src` may be a part of them. */
    method SetData(src: Bytes)
      requires Valid() && |src| <= MAX_SIZE
      modifies this
      ensures Valid() && Contents() == src && readPos == 0
      ensures data == null <==> src == []
      ensures data != null ==> fresh(data) && capacity == CapcityAdj(|src|)
    {
      if |src| > 0 {
        var cap := CapcityAdj(|src|);
        var newData := Filled(cap, src, []);
        size, capacity, data := |src|, cap, newData;
        assert src + [] == src;
      } else {
        size, data, capacity := 0, null, 0;
      }
      readPos := 0;
    }

    method Clear()
      requires Valid()
      modifies this
      ensures Valid() && data == null && Contents() == []
      ensures readPos == if old(data) == null then old(readPos) else 0
    {
      if data != null {
        data, size, capacity, readPos := null, 0, 0, 0;
      }
    }

    /** Zeroes the bytes; where the capacity is enough, the size stays what it was. */
    method Alloc(n: nat)
      requires Valid() && n <= MAX_SIZE
      modifies this, data
      ensures Valid() && (n > 0 ==> readPos == 0 && forall i | 0 <= i < size :: Contents()[i] == 0)
      ensures size == if n == 0 || old(capacity) >= n then old(size) else n
      ensures capacity == if n == 0 || old(capacity) >= n then old(capacity) else CapcityAdj(n)
      ensures n == 0 ==> data == old(data) && Contents() == old(Contents()) && readPos == old(readPos)
      ensures n > 0 ==> data != null
      ensures data == old(data) || fresh(data)
    {
      if n == 0 { return; }
      if capacity >= n {
        Zero();
        readPos := 0;
        return;
      }
      Clear();
      var cap := CapcityAdj(n);
      var newData := new uint8[cap];
      size, capacity, data := n, cap, newData;
      Zero();
      readPos := 0;
    }

    method Zero()
      requires Valid()
      modifies data
      ensures data != null ==> forall i | 0 <= i < data.Length :: data[i] == 0
    {
      if capacity > 0 {
        for i := 0 to capacity
          invariant forall k | 0 <= k < i :: data[k] == 0
        {
          data[i] := 0;
        }
      }
    }

    method Resize(n: nat)
      requires Valid() && n <= MAX_SIZE
      modifies this
      ensures Valid() && size == n && readPos == old(readPos)
      ensures forall i | 0 <= i < n && i < old(size) :: Contents()[i] == old(Contents())[i]
      ensures old(capacity) >= n ==> data == old(data) && capacity == old(capacity)
      ensures old(capacity) < n ==> fresh(data) && capacity == CapcityAdj(n)
    {
      if capacity >= n {
        size := n;
        return;
      }
      var cap := CapcityAdj(n);
      var newData := Filled(cap, if data == null then [] else data[..size], []);
      assert newData[..size] == old(Contents());
      capacity, data, size := cap, newData, n;
    }

    /** Takes up to `n` bytes from the reading position on. */
    method Read(n: nat) returns (out: Bytes)
      requires Valid() && readPos <= size
      modifies `readPos
      ensures readPos == old(readPos) + |out| <= size && out == Contents()[old(readPos)..readPos]
      ensures |out| == if size - old(readPos) > n then n else size - old(readPos)
    {
      var available := size - readPos;
      if available <= 0 { return []; }
      var readSize := if available > n then n else available;
      out := data[readPos..readPos + readSize];
      readPos := readPos + readSize;
    }
  }
}
