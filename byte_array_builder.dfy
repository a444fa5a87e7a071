/**
 * `ByteArrayBuilder`, the growable byte buffer the base64 byte-array
 * serializer fills: a buffer and a fill position, a capacity that at least
 * doubles when it grows, and an initial array that is never written to.
 * Sizes are Kotlin `Int`s, so the doubling wraps past 2^31 - 1.
 */
module Builder {
  import opened ByteSeq

  const InitialSize: int := 10
  /** One past the largest Kotlin `Int`, which also bounds JVM array sizes. */
  const IntLimit: int := 0x8000_0000

  /** `copyOf(newSize)`: the first bytes of `a`, padded with zeros or cut to `newSize`. */
  method CopyOf(a: array<byte>, newSize: nat) returns (r: array<byte>)
    ensures fresh(r) && r.Length == newSize
    ensures forall i :: 0 <= i < newSize ==> r[i] == if i < a.Length then a[i] else 0
  {
    r := new byte[newSize];
    var i := 0;
    while i < newSize
      invariant 0 <= i <= newSize
      invariant forall k :: 0 <= k < i ==> r[k] == if k < a.Length then a[k] else 0
    {
      r[i] := if i < a.Length then a[i] else 0;
      i := i + 1;
    }
  }

  /** The size `ensureCapacity` grows to: the required size or twice the current one (as a wrapping `Int`), whichever is larger. */
  function GrownSize(currentSize: int, requiredCapacity: int): (r: int)
    requires 0 <= currentSize < IntLimit
    ensures r >= requiredCapacity
    ensures 2 * currentSize < IntLimit ==> r == Max(requiredCapacity, 2 * currentSize) && r >= 2 * currentSize
    ensures 2 * currentSize >= IntLimit && requiredCapacity >= 0 ==> r == requiredCapacity
    ensures requiredCapacity < IntLimit ==> r < IntLimit
  {
    var doubled := WrapInt(currentSize * 2);
    assert 2 * currentSize >= IntLimit ==> doubled < 0 by {
      if 2 * currentSize >= IntLimit {
        DivModUnique(currentSize * 2, TwoTo32, 0, currentSize * 2);
      }
    }
    assert 2 * currentSize < IntLimit ==> doubled == 2 * currentSize by {
      DivModUnique(currentSize * 2, TwoTo32, 0, currentSize * 2);
    }
    if requiredCapacity >= doubled then requiredCapacity else doubled
  }

  function Max(a: int, b: int): int {
    if a >= b then a else b
  }

  class ByteArrayBuilder {
    var buffer: array<byte>
    var position: int
    /** The array the builder was made from. */
    ghost const original: array<byte>

    /** The fill position fits the buffer, and while the buffer is the original array it is full. */
    ghost predicate Consistent()
      reads this
    {
      && 0 <= position <= buffer.Length < IntLimit
      && (buffer == original ==> position == buffer.Length)
    }

    /** `Consistent`, and at least the initial capacity. */
    ghost predicate Valid()
      reads this
    {
      Consistent() && buffer.Length >= InitialSize
    }

    /** The bytes held: the initial ones, then the appended ones. */
    function Contents(): seq<byte>
      reads this, buffer
      requires 0 <= position <= buffer.Length
    {
      buffer[..position]
    }

    /** The constructor and `init`: start full with `bufferWithData`, then make room for ten bytes. */
    constructor (bufferWithData: array<byte>)
      requires bufferWithData.Length < IntLimit
      ensures Valid()
      ensures original == bufferWithData && position == bufferWithData.Length
      ensures Contents() == bufferWithData[..]
      ensures bufferWithData.Length < InitialSize ==>
        fresh(buffer) && buffer.Length == Max(InitialSize, 2 * bufferWithData.Length)
      ensures bufferWithData.Length >= InitialSize ==> buffer == bufferWithData
    {
      buffer := bufferWithData;
      position := bufferWithData.Length;
      original := bufferWithData;
      new;
      EnsureCapacity(InitialSize);
    }

    /**
     * `ensureCapacity`: leaves a large enough buffer alone, otherwise moves the
     * bytes into a fresh buffer of `GrownSize` bytes.
     */
    method EnsureCapacity(requiredCapacity: int)
      requires Consistent() && requiredCapacity < IntLimit
      modifies this
      ensures Consistent() && position == old(position)
      ensures buffer.Length >= requiredCapacity && buffer.Length >= old(buffer.Length)
      ensures old(buffer.Length) >= requiredCapacity ==> buffer == old(buffer)
      ensures old(buffer.Length) < requiredCapacity ==>
        && fresh(buffer)
        && buffer.Length == GrownSize(old(buffer.Length), requiredCapacity)
        && buffer[..old(buffer.Length)] == old(buffer[..])
      ensures Contents() == old(Contents())
    {
      if buffer.Length < requiredCapacity {
        var grown := CopyOf(buffer, GrownSize(buffer.Length, requiredCapacity));
        assert grown[..buffer.Length] == buffer[..];
        buffer := grown;
      }
    }

    /** `append`: room for one more byte, then the byte at the old position. */
    method Append(c: byte)
      requires Valid() && position + 1 < IntLimit
      modifies this, buffer
      ensures Valid() && position == old(position) + 1
      ensures Contents() == old(Contents()) + [c]
      ensures original[..] == old(original[..])
    {
      EnsureCapacity(position + 1);
      buffer[position] := c;
      position := position + 1;
    }

    /** `build`: a fresh array holding exactly the bytes up to the position. */
    method Build() returns (r: array<byte>)
      requires Consistent()
      ensures fresh(r) && r[..] == Contents()
    {
      r := CopyOf(buffer, position);
      assert r[..] == buffer[..position];
    }
  }
}
