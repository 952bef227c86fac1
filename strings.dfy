/**
 * Owned-or-borrowed byte strings. A borrowed string points into bytes it does not own
 * (`a` is the caller's array, `off` where the string starts in it); an owned string has
 * its own heap array, at offset 0, at least `len` bytes long.
 */
module Strings {
  import opened Bytes

  class String {
    var a: array<Byte>
    var off: nat
    var len: nat
    var onHeap: bool

    ghost predicate Valid()
      reads this
    {
      off + len <= a.Length && (onHeap ==> off == 0)
    }

    /** The bytes the string denotes. */
    function Bytes(): seq<Byte>
      reads this, a
      requires Valid()
    {
      a[off..off + len]
    }

    /** An owned copy of `src[start..start + length]`. */
    constructor New(src: array<Byte>, start: nat, length: nat)
      requires start + length <= src.Length
      ensures Valid() && onHeap && fresh(a)
      ensures len == length && Bytes() == src[start..start + length]
    {
      var copy := new Byte[length];
      forall i | 0 <= i < length {
        copy[i] := src[start + i];
      }
      a, off, len, onHeap := copy, 0, length, true;
    }

    /** A borrowed string that aliases `src[start..start + length]`. */
    constructor Unsafe(src: array<Byte>, start: nat, length: nat)
      requires start + length <= src.Length
      ensures Valid() && !onHeap
      ensures a == src && off == start && len == length
    {
      a, off, len, onHeap := src, start, length, false;
    }

    /** Makes a borrowed string owned by copying its bytes; an owned string is left as it is. */
    method MakeSafe()
      requires Valid()
      modifies this
      ensures Valid() && onHeap && len == old(len) && Bytes() == old(Bytes())
      ensures old(onHeap) ==> a == old(a) && off == old(off)
      ensures !old(onHeap) ==> fresh(a)
    {
      if onHeap {
        return;
      }
      var copy := new Byte[len];
      forall i | 0 <= i < len {
        copy[i] := a[off + i];
      }
      a, off, onHeap := copy, 0, true;
    }

    /**
     * Makes the string denote `src[start..start + length]`: a borrowed string is re-pointed,
     * an owned one copies the bytes, getting a larger array only when it grows.
     */
    method Update(src: array<Byte>, start: nat, length: nat)
      requires Valid() && start + length <= src.Length
      requires onHeap ==> src != a
      modifies this, if onHeap then {a} else {}
      ensures Valid() && onHeap == old(onHeap) && len == length
      ensures Bytes() == old(src[start..start + length])
      ensures !onHeap ==> a == src && off == start
      ensures onHeap && old(len) >= length ==> a == old(a)
      ensures onHeap && old(len) < length ==> fresh(a)
    {
      if !onHeap {
        a, off, len := src, start, length;
        return;
      }
      if len < length {
        a := new Byte[length];
      }
      forall i | 0 <= i < length {
        a[i] := src[start + i];
      }
      len := length;
    }

    /** Writes the bytes into `dest[..len]` followed by a terminating zero. */
    method ToCString(dest: array<Byte>)
      requires Valid() && len < dest.Length && dest != a
      modifies dest
      ensures dest[..len + 1] == Bytes() + [0]
      ensures dest[len + 1..] == old(dest[len + 1..])
    {
      forall i | 0 <= i < len {
        dest[i] := a[off + i];
      }
      dest[len] := 0;
    }
  }

  /** `strlen`: the position of the first zero byte (the whole length if there is none). */
  function StrLen(s: seq<Byte>): (n: nat)
    ensures n <= |s|
    ensures forall i :: 0 <= i < n ==> s[i] != 0
    ensures n < |s| ==> s[n] == 0
  {
    if s == [] || s[0] == 0 then 0 else 1 + StrLen(s[1..])
  }

  /**
   * An owned string holding the C string minus its last character. The empty C string
   * makes the source ask for SIZE_MAX bytes and abort; that case returns null here.
   */
  method CStringToString(cstring: array<Byte>) returns (s: String?)
    ensures s != null <==> StrLen(cstring[..]) > 0
    ensures s != null ==>
      fresh(s) && fresh(s.a) && s.Valid() && s.onHeap
      && s.Bytes() == cstring[..StrLen(cstring[..]) - 1]
  {
    var n := StrLen(cstring[..]);
    if n == 0 {
      return null;
    }
    s := new String.New(cstring, 0, n - 1);
  }

  /** Two byte strings are equal when their lengths and all their bytes agree. */
  method StringsAreEqual(x: seq<Byte>, y: seq<Byte>) returns (eq: bool)
    ensures eq <==> |x| == |y| && forall i :: 0 <= i < |x| ==> x[i] == y[i]
    ensures eq <==> x == y
  {
    if |x| != |y| {
      return false;
    }
    var i := 0;
    while i < |x|
      invariant 0 <= i <= |x|
      invariant forall j :: 0 <= j < i ==> x[j] == y[j]
    {
      if x[i] != y[i] {
        return false;
      }
      i := i + 1;
    }
    return true;
  }
}
