/** The growable array of mysys/array.c (DYNAMIC_ARRAY): fixed-size
    elements kept in one buffer that grows by a fixed increment.

    The buffer is an array of slots, one per element, each holding the
    `size_of_element` bytes of that element.  A NULL buffer is the
    zero-length array (the source keeps `max_element` at 0 exactly then);
    a buffer supplied by the caller right after the structure (the
    "static" buffer) is flagged by `isStatic`.  Whether malloc/realloc
    succeeds is a parameter of every operation that allocates. */
module DynArray {
  import opened Common

  const MALLOC_OVERHEAD := 8

  /** The allocation increment init_dynamic_array2 settles on: the caller's
      when non-zero, otherwise enough elements to fill about 8 KiB (at
      least 16), but no more than twice a large initial allocation. */
  function InitIncrement(elementSize: nat, initAlloc: nat, allocIncrement: nat): (r: nat)
    requires elementSize > 0
    ensures r > 0
    ensures allocIncrement > 0 ==> r == allocIncrement
    ensures allocIncrement == 0 ==> r <= Max((8192 - MALLOC_OVERHEAD) / elementSize, 16)
    ensures allocIncrement == 0 && initAlloc > 8 ==> r <= 2 * initAlloc
    ensures allocIncrement == 0 ==> r >= 16 || r == 2 * initAlloc
  {
    if allocIncrement > 0 then allocIncrement
    else
      var d := Max((8192 - MALLOC_OVERHEAD) / elementSize, 16);
      if initAlloc > 8 && d > initAlloc * 2 then initAlloc * 2 else d
  }

  /** The capacity allocate_dynamic asks for: `n` rounded up to the next
      multiple of the increment, always strictly above `n`. */
  function RoundUp(n: nat, inc: nat): (r: nat)
    requires inc > 0
    ensures n < r <= n + inc && r % inc == 0
  {
    var q := (n + inc) / inc;
    assert n + inc == inc * q + (n + inc) % inc;
    ModUnique(q * inc, inc, q, 0);
    q * inc
  }

  /** The contents after set_dynamic(idx, element): slot `idx` overwritten,
      or, past the end, the gap zero-filled and the array extended to end
      at `idx`. */
  function SetSpec(c: seq<seq<byte>>, idx: nat, element: seq<byte>, size: nat): (r: seq<seq<byte>>)
    ensures |r| == Max(|c|, idx + 1) && r[idx] == element
    ensures forall j :: 0 <= j < |c| && j != idx ==> r[j] == c[j]
    ensures forall j :: |c| <= j < idx ==> r[j] == Zeros(size)
  {
    if idx < |c| then c[idx := element]
    else c + seq(idx - |c|, _ => Zeros(size)) + [element]
  }

  /** What get_dynamic copies out: the element, or zeros past the end. */
  function GetSpec(c: seq<seq<byte>>, idx: nat, size: nat): seq<byte>
  {
    if idx < |c| then c[idx] else Zeros(size)
  }

  /** Reading back after set_dynamic gives the stored element at `idx` and
      what was readable before everywhere else: the zero-filled gap reads
      like the zeros get_dynamic returns past the end. */
  lemma SetThenGet(c: seq<seq<byte>>, idx: nat, element: seq<byte>, size: nat, j: nat)
    ensures GetSpec(SetSpec(c, idx, element, size), j, size) ==
      if j == idx then element else GetSpec(c, j, size)
  {
    var r := SetSpec(c, idx, element, size);
    if j != idx && j >= |c| && j < |r| {
      assert j < idx;
    }
  }

  /** A byte offset from the buffer start, mapped to an element index the
      way get_index_dynamic does it: -1 below the buffer or when the
      index exceeds `elements`. */
  function GetIndexAsWritten(offset: int, elements: nat, size: nat): (r: int)
    requires size > 0
    ensures r == -1 || r <= elements
  {
    if offset < 0 then -1
    else if offset / size > elements then -1
    else offset / size
  }

  /** The offset just past the last element maps to index `elements`, which
      holds no element. */
  lemma GetIndexAsWrittenAcceptsEnd(elements: nat, size: nat)
    requires size > 0
    ensures GetIndexAsWritten(elements * size, elements, size) == elements
  {
    ModUnique(elements * size, size, elements, 0);
  }

  /** get_index_dynamic with the bound the function evidently means: the
      index of the element whose bytes contain `offset`, or -1 when no
      stored element does. */
  function GetIndex(offset: int, elements: nat, size: nat): (r: int)
    requires size > 0
    ensures r == -1 <==> offset < 0 || offset >= elements * size
    ensures r != -1 ==> 0 <= r < elements && r * size <= offset < r * size + size
  {
    if offset < 0 then -1
    else
      var q := offset / size;
      assert offset == size * q + offset % size;
      if q >= elements then
        assert offset >= elements * size by {
          assert size * q >= size * elements;
        }
        -1
      else
        assert offset < elements * size by {
          assert size * (q + 1) <= size * elements;
        }
        q
  }

  /** allocate_dynamic as written, on its arguments: (failed, new capacity).
      On the static-buffer path a malloc failure returns 0, which callers
      read as success. */
  function AllocateAsWritten(capacity: nat, isStatic: bool, maxElements: nat, inc: nat, mallocOk: bool): (r: (bool, nat))
    requires inc > 0
    ensures !r.0 && maxElements >= capacity && mallocOk ==> r.1 > maxElements
  {
    if maxElements < capacity then (false, capacity)
    else if mallocOk then (false, RoundUp(maxElements, inc))
    else if isStatic then (false, capacity)
    else (true, capacity)
  }

  /** A static array of 16 slots asked to hold index 16 while malloc fails:
      allocate_dynamic reports success yet the capacity stays 16, so the
      set_dynamic that asked writes past the buffer. */
  lemma AllocateAsWrittenSilentFailure()
    ensures var r := AllocateAsWritten(16, true, 16, 16, false);
      !r.0 && r.1 <= 16
  {
  }

  /** A fresh buffer of `newCap` slots whose first `keep` slots are copied
      from `src` (memcpy, or what realloc keeps); the other slots hold
      `size` bytes of unspecified content. */
  method NewBuffer(src: array<seq<byte>>, keep: nat, newCap: nat, size: nat) returns (b: array<seq<byte>>)
    requires keep <= src.Length && keep <= newCap
    ensures fresh(b) && b.Length == newCap
    ensures b[..keep] == src[..keep]
    ensures forall i :: keep <= i < newCap ==> |b[i]| == size
  {
    b := new seq<byte>[newCap](_ => Zeros(size));
    var i := 0;
    while i < keep
      invariant 0 <= i <= keep
      invariant b[..i] == src[..i]
      invariant forall j :: keep <= j < newCap ==> |b[j]| == size
    {
      b[i] := src[i];
      i := i + 1;
    }
  }

  class DynamicArray {
    const elementSize: nat
    var buffer: array<seq<byte>>
    /** The buffer is the caller-supplied one placed after the structure. */
    var isStatic: bool
    var elements: nat
    var maxElement: nat
    var allocIncrement: nat

    ghost predicate Valid()
      reads this, buffer
    {
      elementSize > 0 && allocIncrement > 0 &&
      elements <= maxElement == buffer.Length &&
      (forall i :: 0 <= i < buffer.Length ==> |buffer[i]| == elementSize) &&
      (isStatic ==> maxElement > 0)
    }

    /** The stored elements, in index order. */
    function Contents(): (c: seq<seq<byte>>)
      requires Valid()
      reads this, buffer
      ensures |c| == elements && forall i :: 0 <= i < |c| ==> |c[i]| == elementSize
    {
      buffer[..elements]
    }

    /** init_dynamic_array2.  A static buffer of `initAlloc` slots is used
        when `staticBuffer` is set and `initAlloc` is non-zero; otherwise
        the buffer is malloc'd.  The call fails (the source returns true)
        exactly when `maxElement` ends up 0, and the array is usable even
        then. */
    constructor (elementSize: nat, staticBuffer: bool, initAlloc: nat, allocIncrement: nat, mallocOk: bool)
      requires elementSize > 0
      ensures Valid() && Contents() == []
      ensures this.elementSize == elementSize
      ensures this.allocIncrement == InitIncrement(elementSize, initAlloc, allocIncrement)
      ensures isStatic <==> staticBuffer && initAlloc > 0
      ensures maxElement == 0 <==> !isStatic && !mallocOk
      ensures maxElement != 0 ==> maxElement == if initAlloc == 0 then this.allocIncrement else initAlloc
    {
      var inc := InitIncrement(elementSize, initAlloc, allocIncrement);
      var n := if initAlloc == 0 then inc else initAlloc;
      var useStatic := staticBuffer && initAlloc > 0;
      this.elementSize := elementSize;
      this.allocIncrement := inc;
      elements := 0;
      isStatic := useStatic;
      if useStatic || mallocOk {
        buffer := new seq<byte>[n](_ => Zeros(elementSize));
        maxElement := n;
      } else {
        buffer := new seq<byte>[0];
        maxElement := 0;
      }
    }

    /** alloc_dynamic: the index of a slot for one more element, growing the
        buffer by `allocIncrement` slots when it is full; None when growing
        fails, the array unchanged. */
    method Alloc(mallocOk: bool) returns (slot: Option<nat>)
      requires Valid()
      modifies this
      ensures Valid() && allocIncrement == old(allocIncrement)
      ensures old(elements) < old(maxElement) ==>
        slot == Some(old(elements)) && maxElement == old(maxElement) && buffer == old(buffer) &&
        isStatic == old(isStatic)
      ensures old(elements) == old(maxElement) && mallocOk ==>
        slot == Some(old(elements)) && maxElement == old(maxElement) + allocIncrement &&
        fresh(buffer) && !isStatic
      ensures slot.Some? ==> elements == old(elements) + 1 && Contents()[..old(elements)] == old(Contents())
      ensures old(elements) == old(maxElement) && !mallocOk ==>
        slot == None && elements == old(elements) && maxElement == old(maxElement) &&
        buffer == old(buffer) && isStatic == old(isStatic)
    {
      if elements == maxElement {
        if !mallocOk {
          return None;
        }
        buffer := NewBuffer(buffer, elements, maxElement + allocIncrement, elementSize);
        maxElement := maxElement + allocIncrement;
        isStatic := false;
      }
      slot := Some(elements);
      elements := elements + 1;
    }

    /** insert_dynamic: appends a copy of `element`; fails (true) only when
        the array is full and cannot grow, leaving it unchanged. */
    method Insert(element: seq<byte>, mallocOk: bool) returns (failed: bool)
      requires Valid() && |element| == elementSize
      modifies this, buffer
      ensures Valid()
      ensures failed <==> old(elements) == old(maxElement) && !mallocOk
      ensures failed ==> Contents() == old(Contents()) && maxElement == old(maxElement)
      ensures !failed ==> Contents() == old(Contents()) + [element]
    {
      var slot := Alloc(mallocOk);
      if slot == None {
        return true;
      }
      ghost var before := buffer[..elements];
      buffer[slot.value] := element;
      assert buffer[..elements] == before[..elements - 1] + [element];
      failed := false;
    }

    /** pop_dynamic: removes and returns the last element; None on an empty
        array. */
    method Pop() returns (r: Option<seq<byte>>)
      requires Valid()
      modifies this`elements
      ensures Valid()
      ensures old(elements) == 0 ==> r == None && elements == 0
      ensures old(elements) > 0 ==>
        r == Some(old(Contents())[old(elements) - 1]) && Contents() == old(Contents())[..old(elements) - 1]
    {
      if elements == 0 {
        return None;
      }
      elements := elements - 1;
      r := Some(buffer[elements]);
    }

    /** allocate_dynamic with failure reported: makes room for index
        `maxElements`, rounding the capacity up to a multiple of the
        increment; the stored elements are kept. */
    method Allocate(maxElements: nat, mallocOk: bool) returns (failed: bool)
      requires Valid()
      modifies this
      ensures Valid() && allocIncrement == old(allocIncrement)
      ensures elements == old(elements) && Contents() == old(Contents())
      ensures failed <==> maxElements >= old(maxElement) && !mallocOk
      ensures failed ==> maxElement == old(maxElement) && buffer == old(buffer) && isStatic == old(isStatic)
      ensures !failed ==> maxElement > maxElements
      ensures maxElements < old(maxElement) ==> maxElement == old(maxElement) && buffer == old(buffer) && isStatic == old(isStatic)
      ensures maxElements >= old(maxElement) && mallocOk ==>
        maxElement == RoundUp(maxElements, allocIncrement) && fresh(buffer) && !isStatic
    {
      if maxElements >= maxElement {
        if !mallocOk {
          return true;
        }
        var size := RoundUp(maxElements, allocIncrement);
        var keep := if isStatic then elements else maxElement;
        var b := NewBuffer(buffer, keep, size, elementSize);
        assert b[..elements] == buffer[..elements] by {
          assert b[..keep][..elements] == buffer[..keep][..elements];
        }
        buffer := b;
        maxElement := size;
        isStatic := false;
      }
      failed := false;
    }

    /** set_dynamic: stores a copy of `element` at `idx`, first zero-filling
        the slots between the end and `idx`; fails (true) only when `idx` is
        beyond the capacity and the buffer cannot grow. */
    method Set(element: seq<byte>, idx: nat, mallocOk: bool) returns (failed: bool)
      requires Valid() && |element| == elementSize
      modifies this, buffer
      ensures Valid()
      ensures failed <==> idx >= old(maxElement) && !mallocOk
      ensures failed ==> Contents() == old(Contents())
      ensures !failed ==> Contents() == SetSpec(old(Contents()), idx, element, elementSize)
    {
      ghost var c := Contents();
      if idx >= elements {
        if idx >= maxElement {
          failed := Allocate(idx, mallocOk);
          if failed {
            return;
          }
        }
        var j := elements;
        while j < idx
          modifies buffer
          invariant elements <= j <= idx < buffer.Length
          invariant Valid() && Contents() == c
          invariant forall k :: elements <= k < j ==> buffer[k] == Zeros(elementSize)
        {
          buffer[j] := Zeros(elementSize);
          j := j + 1;
        }
        ghost var filled := buffer[..idx];
        elements := idx + 1;
        buffer[idx] := element;
        assert buffer[..elements] == filled + [element];
        assert filled == c + seq(idx - |c|, _ => Zeros(elementSize));
      } else {
        buffer[idx] := element;
        assert buffer[..elements] == c[idx := element];
      }
      failed := false;
    }

    /** get_dynamic: a copy of element `idx`, or zeros past the end. */
    method Get(idx: nat) returns (r: seq<byte>)
      requires Valid()
      ensures |r| == elementSize
      ensures r == GetSpec(Contents(), idx, elementSize)
    {
      if idx >= elements {
        return Zeros(elementSize);
      }
      r := buffer[idx];
    }

    /** delete_dynamic: empties the array; a malloc'd buffer is freed, a
        static one is kept. */
    method Delete()
      requires Valid()
      modifies this
      ensures Valid() && Contents() == []
      ensures old(isStatic) ==> maxElement == old(maxElement) && buffer == old(buffer) && isStatic
      ensures !old(isStatic) ==> maxElement == 0 && !isStatic
    {
      if isStatic {
        elements := 0;
      } else if maxElement > 0 {
        buffer := new seq<byte>[0];
        elements := 0;
        maxElement := 0;
      }
    }

    /** delete_dynamic_element: removes element `idx`, moving the later
        elements down one slot in order. */
    method DeleteElement(idx: nat)
      requires Valid() && idx < elements
      modifies this`elements, buffer
      ensures Valid()
      ensures Contents() == old(Contents())[..idx] + old(Contents())[idx + 1..]
    {
      ghost var c := Contents();
      elements := elements - 1;
      var i := idx;
      while i < elements
        invariant idx <= i <= elements < buffer.Length && |c| == elements + 1
        invariant forall k :: 0 <= k < buffer.Length ==> |buffer[k]| == elementSize
        invariant forall k :: 0 <= k < idx ==> buffer[k] == c[k]
        invariant forall k :: idx <= k < i ==> buffer[k] == c[k + 1]
        invariant forall k :: i < k <= elements ==> buffer[k] == c[k]
      {
        buffer[i] := buffer[i + 1];
        i := i + 1;
      }
      assert buffer[..elements] == c[..idx] + c[idx + 1..];
    }

    /** freeze_size: shrinks a malloc'd buffer to the elements in use (at
        least one slot); a static buffer is left alone. */
    method FreezeSize()
      requires Valid()
      modifies this
      ensures Valid() && Contents() == old(Contents())
      ensures old(isStatic) || old(maxElement) == 0 ==> maxElement == old(maxElement)
      ensures !old(isStatic) && old(maxElement) > 0 ==> maxElement == Max(elements, 1)
    {
      var n := Max(elements, 1);
      if isStatic {
        return;
      }
      if maxElement > 0 && maxElement != n {
        var b := NewBuffer(buffer, elements, n, elementSize);
        buffer := b;
        maxElement := n;
      }
    }
  }
}
