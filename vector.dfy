/** The growable array of Lab08 (MyVector). It is the substrate of the stack,
    the queue, the binary heap and the disjoint sets. */
module Vectors {

  function Min(a: nat, b: nat): nat { if a < b then a else b }

  /** Copying src[i] into slot |pre| + i of storage whose prefix is
      pre + src[..i] extends that prefix by one. */
  lemma CopiedOne<T>(d: seq<T>, d': seq<T>, pre: seq<T>, src: seq<T>, i: nat)
    requires i < |src| && |pre| + i < |d| && d[..|pre| + i] == pre + src[..i]
    requires d' == d[|pre| + i := src[i]]
    ensures d'[..|pre| + i + 1] == pre + src[..i + 1]
  {
    assert src[..i + 1] == src[..i] + [src[i]];
  }

  /** `data` is the allocated storage, so its length is the capacity; the
      first `theSize` slots hold the elements. Slots past `theSize` keep
      whatever the storage held (stale or default-initialised values), and the
      model keeps them because the queue of Lab04 reads them. */
  class Vector<T(0)> {
    var theSize: nat
    var data: array<T>

    /** The class invariant: size never exceeds capacity. */
    ghost predicate Valid()
      reads this
    {
      theSize <= data.Length
    }

    /** The elements, in index order. */
    ghost function Contents(): seq<T>
      reads this, data
      requires Valid()
    {
      data[..theSize]
    }

    /** MyVector(initSize): size and capacity both equal initSize. The
        elements are default-initialised, which the model leaves unspecified. */
    constructor (initSize: nat)
      ensures Valid() && fresh(data)
      ensures theSize == initSize && data.Length == initSize
    {
      theSize := initSize;
      data := new T[initSize];
    }

    /** A request below the capacity is ignored; otherwise the storage is
        reallocated with exactly newCapacity slots and the elements moved. */
    method Reserve(newCapacity: nat)
      requires Valid()
      modifies this
      ensures Valid() && theSize == old(theSize)
      ensures Contents() == old(Contents())
      ensures newCapacity < old(data.Length) ==> data == old(data)
      ensures newCapacity >= old(data.Length) ==> fresh(data) && data.Length == newCapacity
    {
      if newCapacity < data.Length {
        return;
      }
      var newTemp := new T[newCapacity];
      var i := 0;
      while i < theSize
        invariant i <= theSize
        invariant newTemp[..i] == data[..i]
        modifies newTemp
      {
        newTemp[i] := data[i];
        i := i + 1;
      }
      data := newTemp;
    }

    /** The size becomes newSize; storage grows (to exactly newSize) only when
        it is too small, and the elements below min(old size, newSize) stay. */
    method Resize(newSize: nat)
      requires Valid()
      modifies this
      ensures Valid() && theSize == newSize
      ensures data.Length == if old(data.Length) < newSize then newSize else old(data.Length)
      ensures old(data.Length) >= newSize ==> data == old(data)
      ensures data[..Min(old(theSize), newSize)] == old(data[..Min(theSize, newSize)])
    {
      if data.Length < newSize {
        Reserve(newSize);
      }
      theSize := newSize;
    }

    /** operator[]: reads a slot of the storage (there is no bound check
        against the size, only the storage itself bounds the index). */
    function Get(i: nat): (x: T)
      reads this, data
      requires i < data.Length
      ensures Valid() && i < theSize ==> x == Contents()[i]
    {
      data[i]
    }

    /** operator[] used as an l-value. */
    method Set(i: nat, x: T)
      requires Valid() && i < data.Length
      modifies data
      ensures Valid()
      ensures data[..] == old(data[..])[i := x]
      ensures i < theSize ==> Contents() == old(Contents())[i := x]
    {
      data[i] := x;
    }

    function Empty(): (r: bool)
      reads this, data
      requires Valid()
      ensures r <==> Contents() == []
    {
      theSize == 0
    }

    function Size(): (r: nat)
      reads this, data
      requires Valid()
      ensures r == |Contents()|
    {
      theSize
    }

    function Capacity(): (r: nat)
      reads this
      ensures Valid() ==> theSize <= r
    {
      data.Length
    }

    /** Appends x; when the storage is full it first grows to 2c+1. */
    method PushBack(x: T)
      requires Valid()
      modifies this, data
      ensures Valid()
      ensures Contents() == old(Contents()) + [x]
      ensures data.Length == if old(theSize) == old(data.Length) then 2 * old(data.Length) + 1 else old(data.Length)
      ensures old(theSize) < old(data.Length) ==> data == old(data) && data[..] == old(data[..])[old(theSize) := x]
      ensures old(theSize) == old(data.Length) ==> fresh(data)
    {
      if theSize == data.Length {
        Reserve(2 * data.Length + 1);
      }
      data[theSize] := x;
      theSize := theSize + 1;
    }

    /** Moves the elements of rhs to the end of this vector and leaves rhs
        with size 0 and capacity 0. */
    method Append(rhs: Vector<T>)
      requires Valid() && rhs.Valid() && rhs != this && rhs.data != data
      modifies this, data, rhs
      ensures Valid() && rhs.Valid()
      ensures Contents() == old(Contents()) + old(rhs.Contents())
      ensures rhs.theSize == 0 && rhs.data.Length == 0
      ensures data.Length == if old(theSize + rhs.theSize) > old(data.Length)
                             then 2 * old(theSize + rhs.theSize) + 1 else old(data.Length)
    {
      if theSize + rhs.theSize > data.Length {
        Reserve(2 * (theSize + rhs.theSize) + 1);
      }
      CopyAfterEnd(rhs.data, rhs.theSize);
      theSize := theSize + rhs.theSize;
      rhs.data := new T[0];
      rhs.theSize := 0;
    }

    /** The copy loop of Append: src[..n] goes to the slots right after the
        elements, which stay put. */
    method CopyAfterEnd(src: array<T>, n: nat)
      requires Valid() && src != data && n <= src.Length && theSize + n <= data.Length
      modifies data
      ensures data[..theSize + n] == old(data[..theSize]) + src[..n]
    {
      var i := 0;
      while i < n
        invariant i <= n
        invariant data[..theSize + i] == old(data[..theSize]) + src[..i]
      {
        ghost var before := data[..];
        data[theSize + i] := src[i];
        CopiedOne(before, data[..], old(data[..theSize]), src[..], i);
        i := i + 1;
      }
    }

    /** Drops the last element; a no-op on an empty vector. */
    method PopBack()
      requires Valid()
      modifies this
      ensures Valid() && data == old(data)
      ensures old(theSize) > 0 ==> Contents() == old(Contents())[..old(theSize) - 1]
      ensures old(theSize) == 0 ==> theSize == 0
    {
      if theSize > 0 {
        theSize := theSize - 1;
      }
    }

    /** The last element (reading it from an empty vector is undefined
        behaviour in the source). */
    function Back(): (x: T)
      reads this, data
      requires Valid() && theSize > 0
      ensures x == Contents()[|Contents()| - 1]
    {
      data[theSize - 1]
    }
  }
}
