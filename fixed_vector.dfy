/** `DLFixedVector<T, C>`: a growable sequence of at most `C` elements stored inline in a
    fixed array of possibly uninitialised slots, with a `checked_len` cursor that says how
    many leading slots hold live values. */
module FixedVector {
  import opened Wrappers

  /** Reads the values out of a run of slots that are all initialised: the step from
      `[MaybeUninit<T>]` to `[T]` that `as_slice` performs with `slice::from_raw_parts`. */
  function Unwrap<T>(slots: seq<Option<T>>): (vs: seq<T>)
    requires forall i :: 0 <= i < |slots| ==> slots[i].Some?
    ensures |vs| == |slots|
    ensures forall i :: 0 <= i < |slots| ==> slots[i] == Some(vs[i])
  {
    if slots == [] then [] else [slots[0].value] + Unwrap(slots[1..])
  }

  /** `n` copies of `v`: what `resize` writes into the slots it initialises. */
  function Repeat<T>(v: T, n: nat): (vs: seq<T>)
    ensures |vs| == n
    ensures forall i :: 0 <= i < n ==> vs[i] == v
  {
    seq(n, _ => v)
  }

  function Min(a: nat, b: nat): nat { if a <= b then a else b }

  /** `as_slice` as the code writes it: it takes the address of `elements[0]` before it
      builds the slice, so that slot index is bounds-checked even when the slice is empty.
      `None` is the index panic, which a vector without slots (`C == 0`) always hits. The
      class below models the evidently intended `as_slice`, which has no such case. */
  function SourceAsSlice<T>(slots: seq<Option<T>>, len: nat): (r: Option<seq<T>>)
    requires len <= |slots| && forall i :: 0 <= i < len ==> slots[i].Some?
    ensures r.None? <==> |slots| == 0
    ensures r.Some? ==> |r.value| == len && forall i :: 0 <= i < len ==> slots[i] == Some(r.value[i])
  {
    if 0 < |slots| then Some(Unwrap(slots[..len])) else None
  }

  /** On a prefix of slots that holds `contents`, the code's `as_slice` returns exactly
      `contents` whenever there is a slot at all, and panics only when there is none. */
  lemma SourceAsSliceAgrees<T>(slots: seq<Option<T>>, contents: seq<T>)
    requires |contents| <= |slots|
    requires forall i :: 0 <= i < |contents| ==> slots[i] == Some(contents[i])
    ensures SourceAsSlice(slots, |contents|) == if |slots| == 0 then None else Some(contents)
  {
    if 0 < |slots| {
      var r := SourceAsSlice(slots, |contents|).value;
      assert |r| == |contents|;
      assert forall i :: 0 <= i < |contents| ==> r[i] == contents[i];
      assert r == contents;
    }
  }

  class DLFixedVector<T> {
    /** The const generic `C`: the number of inline slots. */
    const capacity: nat
    /** The inline storage; `None` marks a slot that is not initialised. */
    const elements: array<Option<T>>
    /** The `checked_len` cursor. */
    var checkedLen: nat

    /** The live elements, in slot order. */
    ghost var Contents: seq<T>
    /** Every element this vector has destroyed, in the order it destroyed them. */
    ghost var Dropped: seq<T>

    /** The invariant the unsafe code relies on: `checked_len <= C`, the slots below
        `checked_len` are initialised and hold `Contents`, and no slot above is. */
    ghost predicate Valid()
      reads this, elements
    {
      && elements.Length == capacity
      && checkedLen <= capacity
      && |Contents| == checkedLen
      && (forall i :: 0 <= i < checkedLen ==> elements[i] == Some(Contents[i]))
      && (forall i :: checkedLen <= i < capacity ==> elements[i] == None)
    }

    /** `Default::default`: every slot uninitialised and `checked_len` zero. */
    constructor (capacity: nat)
      ensures Valid() && fresh(elements)
      ensures this.capacity == capacity
      ensures Contents == [] && Dropped == []
    {
      this.capacity := capacity;
      elements := new Option<T>[capacity](_ => None);
      checkedLen := 0;
      Contents := [];
      Dropped := [];
    }

    /** `len`: the number of live elements. */
    function Len(): (n: nat)
      reads this, elements
      requires Valid()
      ensures n == |Contents| && n <= capacity
    {
      checkedLen
    }

    /** `is_empty`. */
    function IsEmpty(): (b: bool)
      reads this, elements
      requires Valid()
      ensures b <==> Contents == []
    {
      checkedLen == 0
    }

    /** `capacity`: the constant `C`, which bounds the length. */
    function Capacity(): (c: nat)
      reads this, elements
      requires Valid()
      ensures c == elements.Length && |Contents| <= c
    {
      capacity
    }

    /** `as_slice`: exactly the live elements, read from the initialised prefix. */
    function AsSlice(): (s: seq<T>)
      reads this, elements
      requires Valid()
      ensures s == Contents
    {
      Unwrap(elements[..checkedLen])
    }

    /** `Index::index`: element `i` of the live prefix. Out of range the slice index
        panics, so the index must be below the length. */
    function Index(i: nat): (x: T)
      reads this, elements
      requires Valid() && i < Len()
      ensures x == Contents[i]
    {
      elements[i].value
    }

    /** `IndexMut::index_mut` used to store `v` at `i` (`vec[i] = v`): the element that was
        there is dropped by the assignment and `v` takes its place. */
    method SetAt(i: nat, v: T)
      requires Valid() && i < |Contents|
      modifies this, elements
      ensures Valid()
      ensures checkedLen == old(checkedLen)
      ensures Contents == old(Contents)[i := v]
      ensures Dropped == old(Dropped) + [old(Contents)[i]]
    {
      var prev := elements[i].value;
      Dropped := Dropped + [prev];
      elements[i] := Some(v);
      Contents := Contents[i := v];
    }

    /** `push`: appends `value` when a slot is free; otherwise hands `value` back in `Err`
        and changes nothing. */
    method Push(value: T) returns (r: Result<(), T>)
      requires Valid()
      modifies this, elements
      ensures Valid()
      ensures r.Ok? <==> old(|Contents|) < capacity
      ensures r.Ok? ==> Contents == old(Contents) + [value] && checkedLen == old(checkedLen) + 1
      ensures r.Ok? ==> forall i :: 0 <= i < old(checkedLen) ==> elements[i] == old(elements[i])
      ensures r.Err? ==> r.error == value && unchanged(this) && unchanged(elements)
      ensures Dropped == old(Dropped)
    {
      var prevLen := checkedLen;
      if prevLen + 1 > capacity {
        return Err(value);
      }
      elements[prevLen] := Some(value);
      checkedLen := prevLen + 1;
      Contents := Contents + [value];
      r := Ok(());
    }

    /** `truncate`: drops the elements at `[newLen, len)` one at a time in increasing
        index order and shortens the vector; a `newLen` at or past the length changes
        nothing. */
    method Truncate(newLen: nat)
      requires Valid()
      modifies this, elements
      ensures Valid()
      ensures checkedLen == Min(newLen, old(checkedLen))
      ensures Contents == old(Contents)[..checkedLen]
      ensures Dropped == old(Dropped) + old(Contents)[checkedLen..]
      ensures newLen >= old(checkedLen) ==> unchanged(this) && unchanged(elements)
    {
      if newLen < checkedLen {
        DropTail(newLen);
        checkedLen := newLen;
        Contents := Contents[..newLen];
      }
    }

    /** The loop of `truncate`: drops the live elements at `[lo, len)` in increasing index
        order, leaving those slots uninitialised. Only initialised slots are dropped:
        reading `.value` is the proof that the slot holds a value. `checked_len` is not
        yet lowered. */
    method DropTail(lo: nat)
      requires Valid() && lo <= checkedLen
      modifies this, elements
      ensures checkedLen == old(checkedLen) && Contents == old(Contents)
      ensures Dropped == old(Dropped) + Contents[lo..]
      ensures forall j :: 0 <= j < lo ==> elements[j] == Some(Contents[j])
      ensures forall j :: lo <= j < capacity ==> elements[j] == None
    {
      var hi := checkedLen;
      for i := lo to hi
        invariant checkedLen == hi && Contents == old(Contents)
        invariant Dropped == old(Dropped) + Contents[lo..i]
        invariant forall j :: 0 <= j < capacity ==>
          elements[j] == if j < lo || i <= j < hi then Some(Contents[j]) else None
      {
        var v := elements[i].value;
        assert Contents[lo..i + 1] == Contents[lo..i] + [v];
        Dropped := Dropped + [v];
        elements[i] := None;
      }
      assert Contents[lo..hi] == Contents[lo..];
    }

    /** `resize`: refuses a length beyond `C` by handing `value` back; shrinks exactly as
        `truncate` does; otherwise fills `[len, newLen)` with clones of `value`. */
    method Resize(newLen: nat, value: T) returns (r: Result<(), T>)
      requires Valid()
      modifies this, elements
      ensures Valid()
      ensures r == if newLen <= capacity then Ok(()) else Err(value)
      ensures newLen > capacity ==> unchanged(this) && unchanged(elements)
      ensures newLen <= capacity && newLen < old(checkedLen) ==>
        && checkedLen == newLen
        && Contents == old(Contents)[..newLen]
        && Dropped == old(Dropped) + old(Contents)[newLen..]
      ensures newLen <= capacity && newLen >= old(checkedLen) ==>
        && checkedLen == newLen
        && Contents == old(Contents) + Repeat(value, newLen - old(checkedLen))
        && Dropped == old(Dropped)
    {
      if newLen > capacity {
        return Err(value);
      }
      if newLen < checkedLen {
        Truncate(newLen);
      } else {
        var prevLen := checkedLen;
        for i := prevLen to newLen
          invariant checkedLen == prevLen && Contents == old(Contents) && Dropped == old(Dropped)
          invariant forall j :: 0 <= j < prevLen ==> elements[j] == Some(Contents[j])
          invariant forall j :: prevLen <= j < i ==> elements[j] == Some(value)
          invariant forall j :: i <= j < capacity ==> elements[j] == None
        {
          elements[i] := Some(value);
        }
        checkedLen := newLen;
        Contents := Contents + Repeat(value, newLen - prevLen);
      }
      r := Ok(());
    }

    /** `Drop::drop`, which is `truncate(0)`: every live element is dropped exactly once,
        in index order, and no unused slot is touched. */
    method Drop()
      requires Valid()
      modifies this, elements
      ensures Valid()
      ensures checkedLen == 0 && Contents == []
      ensures Dropped == old(Dropped) + old(Contents)
    {
      Truncate(0);
    }
  }

  /** For every vector, the code's `as_slice` returns exactly the live elements when it
      has a slot, and panics when it has none. */
  lemma SourceAsSliceOfVector<T>(v: DLFixedVector<T>)
    requires v.Valid()
    ensures SourceAsSlice(v.elements[..], v.checkedLen)
      == if v.capacity == 0 then None else Some(v.AsSlice())
  {
    SourceAsSliceAgrees(v.elements[..], v.Contents);
  }

  /** A vector with no slots: the intended `as_slice` is the empty slice, while the code
      as written panics indexing `elements[0]`; every operation that goes through it
      (`len`, `is_empty`, `index`, `push`, `truncate`, `resize(0, _)`, `drop`) would too. */
  method ZeroCapacityScenario<T>(z: T)
  {
    var v := new DLFixedVector<T>(0);
    assert v.AsSlice() == [];
    assert SourceAsSlice(v.elements[..], v.checkedLen) == None;
    var r := v.Resize(1, z);
    assert r == Err(z);
    r := v.Push(z);
    assert r == Err(z) && v.IsEmpty();
  }

  /** A client: a vector of capacity 3 takes three pushes and refuses a fourth, returning
      its value. */
  method CapacityThreeScenario<T>(a: T, b: T, c: T, d: T, z: T)
  {
    var v := new DLFixedVector<T>(3);
    var r := v.Push(a);
    assert r.Ok?;
    r := v.Push(b);
    r := v.Push(c);
    assert r.Ok? && v.Len() == 3 && v.AsSlice() == [a, b, c];
    r := v.Push(d);
    assert r == Err(d) && v.Len() == 3;
    ShrinkAndRegrowScenario(v, a, b, c, z);
  }

  /** A client, continued: the full vector shrinks to one element, grows back with a fill
      value, and its drop destroys the rest in index order. */
  method ShrinkAndRegrowScenario<T>(v: DLFixedVector<T>, a: T, b: T, c: T, z: T)
    requires v.Valid() && v.capacity == 3 && v.Contents == [a, b, c] && v.Dropped == []
    modifies v, v.elements
  {
    v.Truncate(1);
    assert v.AsSlice() == [a] && v.Dropped == [b, c];
    var r := v.Resize(3, z);
    assert r.Ok? && v.AsSlice() == [a, z, z];
    v.Drop();
    assert v.Dropped == [b, c, a, z, z];
  }
}
