/**
 * The dynamic array of base.h (VECTOR_DECLARE / VECTOR_DEFINE), one class
 * for every instantiation: a buffer of `capacity` elements of which the
 * first `size` are in use.
 *
 * The buffer is an array whose length is the capacity; a NULL buffer is an
 * array of length 0. Heap allocation (malloc/realloc) is modelled as always
 * succeeding, so the operations that can only fail on allocation return true.
 */
module Vectors {
  import opened Wrappers

  /** BASE_VECTOR_DEFAULT_CAPACITY. */
  const DEFAULT_CAPACITY: nat := 8

  /** The capacity vec_init settles on: the request, or the default for 0. */
  function InitialCapacity(requested: nat): (r: nat)
    ensures r > 0
    ensures requested > 0 ==> r == requested
  {
    if requested > 0 then requested else DEFAULT_CAPACITY
  }

  /**
   * The capacity push and insert grow a full buffer to: twice the old one
   * (BASE_VECTOR_GROWTH_FACTOR 2.0), or the default for an empty one.
   */
  function GrowCapacity(capacity: nat): (r: nat)
    ensures r > capacity
    ensures capacity > 0 ==> r == 2 * capacity
  {
    if capacity > 0 then capacity * 2 else DEFAULT_CAPACITY
  }

  /** The capacity the doubling loop of append_array reaches from c: the first c * 2^k at least `needed`. */
  function DoubleUntil(c: nat, needed: nat): (r: nat)
    requires c > 0
    ensures r >= needed && r >= c
    ensures r == c || r < 2 * needed
    decreases needed - c
  {
    if c >= needed then c else DoubleUntil(c * 2, needed)
  }

  /** The capacity append_array asks reserve for when `needed` elements do not fit in `capacity`. */
  function AppendCapacity(capacity: nat, needed: nat): (r: nat)
    ensures r >= needed && r >= capacity
  {
    DoubleUntil(if capacity == 0 then DEFAULT_CAPACITY else capacity, needed)
  }

  /** The doubling loop of vec_append_array, from the current capacity (the default for 0). */
  method DoubleCapacity(capacity: nat, needed: nat) returns (c: nat)
    ensures c == AppendCapacity(capacity, needed)
  {
    c := if capacity == 0 then DEFAULT_CAPACITY else capacity;
    while c < needed
      invariant c > 0
      invariant AppendCapacity(capacity, needed) == DoubleUntil(c, needed)
      decreases needed - c
    {
      c := c * 2;
    }
  }

  /** s with x inserted before position i: the contents after vec_insert. */
  function Inserted<T>(s: seq<T>, i: nat, x: T): (r: seq<T>)
    requires i <= |s|
    ensures |r| == |s| + 1 && r[i] == x
    ensures forall k :: 0 <= k < i ==> r[k] == s[k]
    ensures forall k :: i < k < |r| ==> r[k] == s[k - 1]
  {
    s[..i] + [x] + s[i..]
  }

  /** s without position i: the contents after vec_remove. */
  function Removed<T>(s: seq<T>, i: nat): (r: seq<T>)
    requires i < |s|
    ensures |r| == |s| - 1
    ensures forall k :: 0 <= k < i ==> r[k] == s[k]
    ensures forall k :: i <= k < |r| ==> r[k] == s[k + 1]
  {
    s[..i] + s[i + 1..]
  }

  /** Removing what was just inserted gives back the original contents. */
  lemma RemoveUndoesInsert<T>(s: seq<T>, i: nat, x: T)
    requires i <= |s|
    ensures Removed(Inserted(s, i, x), i) == s
  {
    assert Removed(Inserted(s, i, x), i) == s[..i] + s[i..];
    assert s[..i] + s[i..] == s;
  }

  /** Re-inserting the removed element at its place gives back the original contents. */
  lemma InsertUndoesRemove<T>(s: seq<T>, i: nat)
    requires i < |s|
    ensures Inserted(Removed(s, i), i, s[i]) == s
  {
    var r := Inserted(Removed(s, i), i, s[i]);
    assert forall k :: 0 <= k < |s| ==> r[k] == s[k];
  }

  /** s cut to n elements, or padded to n with copies of `fill`: the contents after vec_resize. */
  function Resized<T>(s: seq<T>, n: nat, fill: T): (r: seq<T>)
    ensures |r| == n
    ensures forall k :: 0 <= k < n && k < |s| ==> r[k] == s[k]
    ensures forall k :: |s| <= k < n ==> r[k] == fill
  {
    if n <= |s| then s[..n] else s + seq(n - |s|, _ => fill)
  }

  class Vec<T(0)> {
    var data: array<T>
    var size: nat
    var capacity: nat

    ghost predicate Valid()
      reads this
    {
      capacity == data.Length && size <= capacity
    }

    /** The elements in use, data[0 .. size). */
    ghost function Elements(): seq<T>
      reads this, data
      requires Valid()
    {
      data[..size]
    }

    /** vec_init: no elements, a buffer of InitialCapacity(initialCapacity). */
    constructor Init(initialCapacity: nat)
      ensures Valid() && fresh(data)
      ensures Elements() == [] && capacity == InitialCapacity(initialCapacity)
    {
      var c := if initialCapacity > 0 then initialCapacity else DEFAULT_CAPACITY;
      data := new T[c];
      size := 0;
      capacity := c;
    }

    /** vec_free: the buffer is released; the vector is empty with capacity 0 and stays usable. */
    method Free()
      modifies this
      ensures Valid() && Elements() == [] && capacity == 0
    {
      data := new T[0];
      size := 0;
      capacity := 0;
    }

    /**
     * vec_reserve: a request no larger than the capacity changes nothing;
     * otherwise the buffer is reallocated to exactly the requested capacity
     * and, as realloc does, the whole old block is carried over.
     */
    method Reserve(newCapacity: nat) returns (ok: bool)
      requires Valid()
      modifies this
      ensures Valid() && ok && size == old(size)
      ensures Elements() == old(Elements())
      ensures capacity == if newCapacity <= old(capacity) then old(capacity) else newCapacity
      ensures newCapacity <= old(capacity) ==> data == old(data)
      ensures newCapacity > old(capacity) ==> fresh(data) && data[..old(capacity)] == old(data[..])
    {
      if newCapacity <= capacity {
        return true;
      }
      var newData := new T[newCapacity];
      forall k | 0 <= k < capacity {
        newData[k] := data[k];
      }
      data := newData;
      capacity := newCapacity;
      return true;
    }

    /** vec_push: appends value, growing a full buffer to GrowCapacity(capacity). */
    method Push(value: T) returns (ok: bool)
      requires Valid()
      modifies this, data
      ensures Valid() && ok && (data == old(data) || fresh(data))
      ensures Elements() == old(Elements()) + [value]
      ensures capacity == if old(size) < old(capacity) then old(capacity) else GrowCapacity(old(capacity))
    {
      if size >= capacity {
        var newCapacity := if capacity > 0 then capacity * 2 else DEFAULT_CAPACITY;
        ok := Reserve(newCapacity);
      }
      data[size] := value;
      size := size + 1;
      ok := true;
    }

    /** vec_pop: the last element is removed and returned; None on an empty vector. */
    method Pop() returns (r: Option<T>)
      requires Valid()
      modifies this
      ensures Valid() && data == old(data) && capacity == old(capacity)
      ensures r.None? <==> old(Elements()) == []
      ensures r.None? ==> Elements() == old(Elements())
      ensures r.Some? ==> old(Elements()) == Elements() + [r.value]
    {
      if size == 0 {
        return None;
      }
      size := size - 1;
      r := Some(data[size]);
    }

    /** vec_get / vec_get_const: the element at an index the bounds check admits. */
    function Get(index: nat): (r: T)
      reads this, data
      requires Valid() && index < size
      ensures r == Elements()[index]
    {
      data[index]
    }

    /** vec_set: overwrites one element in place. */
    method Set(index: nat, value: T)
      requires Valid() && index < size
      modifies data
      ensures Valid() && Elements() == old(Elements())[index := value]
    {
      data[index] := value;
    }

    /**
     * vec_insert: value goes in before position index (index == size
     * appends); the tail moves up one place (memmove), growing a full buffer
     * as push does.
     */
    method Insert(index: nat, value: T) returns (ok: bool)
      requires Valid() && index <= size
      modifies this, data
      ensures Valid() && ok && (data == old(data) || fresh(data))
      ensures Elements() == Inserted(old(Elements()), index, value)
      ensures capacity == if old(size) < old(capacity) then old(capacity) else GrowCapacity(old(capacity))
    {
      if size >= capacity {
        var newCapacity := if capacity > 0 then capacity * 2 else DEFAULT_CAPACITY;
        ok := Reserve(newCapacity);
      }
      ghost var s := data[..size];
      ShiftUp(index);
      ghost var shifted := data[..];
      data[index] := value;
      size := size + 1;
      forall k | 0 <= k < size
        ensures data[k] == Inserted(s, index, value)[k]
      {
        if k < index {
          assert data[k] == shifted[..index][k];
        } else if k > index {
          assert data[k] == shifted[k];
        }
      }
      assert Elements() == Inserted(s, index, value);
      ok := true;
    }

    /** The memmove of vec_insert: data[index .. size) moves up one place, into a free slot. */
    method ShiftUp(index: nat)
      requires Valid() && index <= size < capacity
      modifies data
      ensures data[..index] == old(data[..index])
      ensures forall k :: index < k <= size ==> data[k] == old(data[k - 1])
    {
      var j := size;
      while j > index
        invariant index <= j <= size < data.Length
        invariant data[..j] == old(data[..j])
        invariant forall k :: j < k <= size ==> data[k] == old(data[k - 1])
      {
        data[j] := data[j - 1];
        j := j - 1;
      }
    }

    /** vec_remove: the element at index is returned and the tail moves down one place. */
    method Remove(index: nat) returns (r: T)
      requires Valid() && index < size
      modifies this, data
      ensures Valid() && data == old(data) && capacity == old(capacity)
      ensures r == old(Elements())[index]
      ensures Elements() == Removed(old(Elements()), index)
    {
      ghost var s := data[..size];
      r := data[index];
      var j := index;
      while j + 1 < size
        invariant index <= j < size
        invariant data[..index] == s[..index]
        invariant forall k :: index <= k < j ==> data[k] == s[k + 1]
        invariant forall k :: j <= k < size ==> data[k] == s[k]
        modifies data
      {
        data[j] := data[j + 1];
        j := j + 1;
      }
      size := size - 1;
      assert Elements() == Removed(s, index);
    }

    /**
     * vec_resize: the buffer grows to exactly newSize when it is too small;
     * new positions are filled with `fill`, and a smaller size truncates.
     */
    method Resize(newSize: nat, fill: T) returns (ok: bool)
      requires Valid()
      modifies this, data
      ensures Valid() && ok && (data == old(data) || fresh(data))
      ensures Elements() == Resized(old(Elements()), newSize, fill)
      ensures capacity == if newSize > old(capacity) then newSize else old(capacity)
    {
      if newSize > capacity {
        ok := Reserve(newSize);
      }
      ghost var s := data[..size];
      if newSize > size {
        for i := size to newSize
          modifies data
          invariant data[..size] == s
          invariant forall k :: size <= k < i ==> data[k] == fill
        {
          data[i] := fill;
        }
      }
      size := newSize;
      assert Elements() == Resized(s, newSize, fill);
      ok := true;
    }

    /** vec_clear: no elements; the buffer is kept. */
    method Clear()
      requires Valid()
      modifies this
      ensures Valid() && Elements() == [] && data == old(data) && capacity == old(capacity)
    {
      size := 0;
    }

    /** vec_shrink_to_fit: the capacity drops to the size (0 releases the buffer); the elements are kept. */
    method ShrinkToFit() returns (ok: bool)
      requires Valid()
      modifies this
      ensures Valid() && ok
      ensures Elements() == old(Elements()) && capacity == old(size)
    {
      if size == capacity {
        return true;
      }
      var newData := new T[size];
      forall k | 0 <= k < size {
        newData[k] := data[k];
      }
      data := newData;
      capacity := size;
      ok := true;
    }

    /** vec_copy: a fresh vector with the same elements and a buffer of InitialCapacity(size). */
    method Copy() returns (c: Vec<T>)
      requires Valid()
      ensures fresh(c) && fresh(c.data) && c.Valid()
      ensures c.Elements() == Elements() && c.capacity == InitialCapacity(size)
    {
      c := new Vec.Init(size);
      forall k | 0 <= k < size {
        c.data[k] := data[k];
      }
      c.size := size;
    }

    /**
     * vec_append_array: the elements of arr go after the current ones; when
     * they do not fit, the capacity (the default for 0) doubles until they do.
     */
    method AppendArray(arr: seq<T>) returns (ok: bool)
      requires Valid()
      modifies this, data
      ensures Valid() && ok && (data == old(data) || fresh(data))
      ensures Elements() == old(Elements()) + arr
      ensures capacity == if old(size) + |arr| <= old(capacity) || arr == [] then old(capacity)
                          else AppendCapacity(old(capacity), old(size) + |arr|)
    {
      if |arr| == 0 {
        assert arr == [];
        assert Elements() + arr == Elements();
        return true;
      }
      var newSize := size + |arr|;
      if newSize > capacity {
        var newCapacity := DoubleCapacity(capacity, newSize);
        ok := Reserve(newCapacity);
      }
      ghost var s := data[..size];
      CopyAfter(arr);
      size := newSize;
      assert Elements() == s + arr;
      ok := true;
    }

    /** The memcpy of vec_append_array: arr is written just past the elements in use. */
    method CopyAfter(arr: seq<T>)
      requires Valid() && size + |arr| <= capacity
      modifies data
      ensures data[..size] == old(data[..size])
      ensures data[size..size + |arr|] == arr
    {
      forall k | 0 <= k < |arr| {
        data[size + k] := arr[k];
      }
    }

    /** vec_size. */
    function Size(): (r: nat)
      reads this, data
      requires Valid()
      ensures r == |Elements()|
    {
      size
    }

    /** vec_is_empty. */
    function IsEmpty(): (r: bool)
      reads this, data
      requires Valid()
      ensures r <==> Elements() == []
    {
      size == 0
    }
  }

  /** A pop right after a push hands back the pushed value and restores the contents. */
  method PushThenPop<T(0)>(v: Vec<T>, x: T) returns (r: Option<T>)
    requires v.Valid()
    modifies v, v.data
    ensures v.Valid() && r == Some(x) && v.Elements() == old(v.Elements())
  {
    var _ := v.Push(x);
    r := v.Pop();
  }

  /** Removing at the position just inserted at hands back the inserted value and restores the contents. */
  method InsertThenRemove<T(0)>(v: Vec<T>, i: nat, x: T) returns (r: T)
    requires v.Valid() && i <= v.size
    modifies v, v.data
    ensures v.Valid() && r == x && v.Elements() == old(v.Elements())
  {
    var _ := v.Insert(i, x);
    r := v.Remove(i);
    RemoveUndoesInsert(old(v.Elements()), i, x);
  }
}
