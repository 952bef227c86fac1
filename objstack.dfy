/**
 * The scanner's path stack: a doubling array of frames, where -1 marks an object frame and
 * any other value is the current index of an array frame.
 */
module ObjStacks {

  const OBJECT_FRAME: int := -1

  class ObjStack {
    var idxs: array<int>
    var len: nat

    ghost predicate Valid()
      reads this
    {
      0 < idxs.Length && len <= idxs.Length
    }

    /** The frames, bottom first. */
    function Frames(): seq<int>
      reads this, idxs
      requires Valid()
    {
      idxs[..len]
    }

    constructor (capacity: nat)
      requires 0 < capacity
      ensures Valid() && fresh(idxs) && idxs.Length == capacity && Frames() == []
    {
      idxs := new int[capacity];
      len := 0;
    }

    /** Doubles the capacity, keeping the frames. */
    method Grow() returns (max: nat)
      requires Valid()
      modifies this
      ensures Valid() && fresh(idxs)
      ensures max == idxs.Length == 2 * old(idxs.Length)
      ensures len == old(len) && Frames() == old(Frames())
    {
      max := idxs.Length * 2;
      var grown := new int[max];
      forall i | 0 <= i < len {
        grown[i] := idxs[i];
      }
      idxs := grown;
    }

    method Push(idx: int)
      requires Valid()
      modifies this, idxs
      ensures Valid()
      ensures Frames() == old(Frames()) + [idx]
      ensures old(len) == old(idxs.Length) ==> fresh(idxs) && idxs.Length == 2 * old(idxs.Length)
      ensures old(len) < old(idxs.Length) ==> idxs == old(idxs)
    {
      if len == idxs.Length {
        var max := Grow();
      }
      idxs[len] := idx;
      len := len + 1;
    }

    /** Removes the top frame; the result is whether that frame was non-zero. */
    method Pop() returns (b: bool)
      requires Valid() && 0 < len
      modifies this`len
      ensures Valid()
      ensures Frames() == old(Frames())[..old(len) - 1]
      ensures b == (old(Frames())[old(len) - 1] != 0)
    {
      len := len - 1;
      b := idxs[len] != 0;
    }

    method Replace(idx: int)
      requires Valid() && 0 < len
      modifies idxs
      ensures Frames() == old(Frames())[..len - 1] + [idx]
    {
      idxs[len - 1] := idx;
    }

    /** Advances the index of the top (array) frame by one. */
    method IndexIncr()
      requires Valid() && 0 < len
      modifies idxs
      ensures Frames() == old(Frames())[..len - 1] + [old(Frames())[len - 1] + 1]
    {
      idxs[len - 1] := idxs[len - 1] + 1;
    }

    /** The top frame. */
    function Last(): (top: int)
      reads this, idxs
      requires Valid() && 0 < len
      ensures top == Frames()[|Frames()| - 1]
    {
      idxs[len - 1]
    }

    predicate InObject()
      reads this, idxs
      requires Valid() && 0 < len
    {
      Last() == OBJECT_FRAME
    }
  }
}
