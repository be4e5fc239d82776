/** The growable array `Vector<T>` of 2048/Utility.h. The buffer is an
    array whose length is the `reserved` capacity; a null buffer of the
    source is an array of length 0. */
module Vectors {

  class Vector<T(0)> {
    var data: array<T>
    var count: nat
    var reserved: nat

    /** Growth factor applied when a full vector receives another element. */
    static const Growth: nat := 2

    /** The buffer is exactly `reserved` long and holds the `count` elements. */
    ghost predicate Valid()
      reads this
    {
      data.Length == reserved && count <= reserved
    }

    /** The elements in use, in order. */
    ghost function Elements(): seq<T>
      reads this, data
      requires Valid()
    {
      data[..count]
    }

    /** `Vector()`: an empty vector that has already reserved 16 slots. */
    constructor ()
      ensures Valid() && fresh(data)
      ensures Elements() == [] && reserved == 16
    {
      data := new T[16];
      count := 0;
      reserved := 16;
    }

    /** `Vector(Vector const&)`: starts with no buffer and copy-assigns. */
    constructor Copy(other: Vector<T>)
      requires other.Valid()
      ensures Valid() && fresh(data)
      ensures Elements() == other.Elements() && reserved == other.count
    {
      var n := other.count;
      var buf := new T[n];
      var i := 0;
      while i < n
        invariant 0 <= i <= n
        invariant buf[..i] == other.data[..i]
      {
        buf[i] := other.data[i];
        i := i + 1;
      }
      data := buf;
      count := n;
      reserved := n;
    }

    /** `size()`. */
    function Size(): (n: nat)
      reads this, data
      requires Valid()
      ensures n == |Elements()|
    {
      count
    }

    /** `operator[]` read: the element at `idx` (an index past the end is a
        caller error in the source). */
    function Get(idx: nat): (v: T)
      reads this, data
      requires Valid() && idx < count
      ensures v == Elements()[idx]
    {
      data[idx]
    }

    /** `operator[]` write: assigning through the returned reference. */
    method Set(idx: nat, v: T)
      requires Valid() && idx < count
      modifies data
      ensures Valid()
      ensures Elements() == old(Elements())[idx := v]
    {
      data[idx] := v;
    }

    /** `front()`: the first element. */
    function Front(): (v: T)
      reads this, data
      requires Valid() && count > 0
      ensures v == Elements()[0]
    {
      data[0]
    }

    /** `back()`: the last element. */
    function Back(): (v: T)
      reads this, data
      requires Valid() && count > 0
      ensures v == Elements()[|Elements()| - 1]
    {
      data[count - 1]
    }

    /** `reserve(n)`: a fresh buffer of capacity `n` that receives the first
        min(count, n) elements; `count` itself is left as it was, so the
        vector is consistent again only when `n >= count` (the only way the
        source calls it on a non-empty vector, or right before `resize`
        overwrites `count`). */
    method Reserve(n: nat) returns (ok: bool)
      requires Valid()
      modifies this
      ensures fresh(data) && data.Length == n && reserved == n
      ensures count == old(count)
      ensures var m := if count < n then count else n;
        data[..m] == old(data[..m])
      ensures n >= count ==> Valid() && Elements() == old(Elements())
      ensures ok
    {
      reserved := n;
      var newData := new T[n];
      var m := if count < n then count else n;
      var i := 0;
      while i < m
        invariant 0 <= i <= m
        invariant data == old(data) && count == old(count) && reserved == n
        invariant newData[..i] == data[..i]
      {
        newData[i] := data[i];
        i := i + 1;
      }
      data := newData;
      ok := true;
    }

    /** `resize(n)`: capacity and size both become `n`; the first
        min(old size, n) elements survive. */
    method Resize(n: nat)
      requires Valid()
      modifies this
      ensures Valid() && fresh(data)
      ensures count == n && reserved == n
      ensures var m := if old(count) < n then old(count) else n;
        Elements()[..m] == old(Elements())[..m]
    {
      var _ := Reserve(n);
      count := n;
    }

    /** `pushBack(obj)`: appends, first doubling the capacity (or reserving
        16 slots when there were none) when the buffer is full. */
    method PushBack(obj: T)
      requires Valid()
      modifies this, data
      ensures Valid()
      ensures Elements() == old(Elements()) + [obj]
      ensures old(count) < old(reserved) ==> reserved == old(reserved) && data == old(data)
      ensures old(count) == old(reserved) ==>
        fresh(data) && reserved == (if old(reserved) > 0 then old(reserved) else 8) * Growth
    {
      var ok := count < reserved;
      if !ok {
        ok := Reserve((if reserved > 0 then reserved else 8) * Growth);
      }
      if ok {
        data[count] := obj;
        count := count + 1;
      }
    }

    /** `clear(memory)`: forgets the elements; with `memory` the buffer is
        released as well. */
    method Clear(memory: bool)
      requires Valid()
      modifies this
      ensures Valid() && Elements() == []
      ensures memory ==> reserved == 0
      ensures !memory ==> reserved == old(reserved) && data == old(data)
    {
      if memory && reserved > 0 {
        data := new T[0];
        reserved := 0;
      }
      count := 0;
    }

    /** `operator=(Vector const&)`: resize to the source's size, then copy
        every element over. Assigning a vector to itself keeps it as it is. */
    method Assign(other: Vector<T>)
      requires Valid() && other.Valid()
      modifies this
      ensures Valid() && fresh(data)
      ensures Elements() == old(other.Elements()) && reserved == old(other.count)
      ensures other != this ==> unchanged(other)
    {
      ghost var src := other.Elements();
      Resize(other.count);
      var i := 0;
      while i < count
        invariant 0 <= i <= count == |src| == reserved
        invariant Valid() && fresh(data) && other.Valid()
        invariant other.Elements() == src
        invariant other != this ==> unchanged(other)
        invariant data[..i] == src[..i]
      {
        data[i] := other.data[i];
        i := i + 1;
      }
    }

    /** `find(x, cmp)`: whether some element in use is related to `x`. */
    method Find(x: T, cmp: (T, T) -> bool) returns (found: bool)
      requires Valid()
      ensures found <==> exists i :: 0 <= i < |Elements()| && cmp(Elements()[i], x)
    {
      var i := 0;
      while i < count
        invariant 0 <= i <= count
        invariant forall k :: 0 <= k < i ==> !cmp(data[k], x)
      {
        if cmp(data[i], x) {
          assert Elements()[i] == data[i];
          return true;
        }
        i := i + 1;
      }
      return false;
    }
  }
}
