/**
 * The retained-window buffered reader.
 *
 * The stream is the sequence of bytes it has not delivered yet. The capacity of the
 * buffer and the number of valid bytes in it are two fields (`buff.Length` and `fill`);
 * the reader reads `capacity - len` bytes on every refill.
 */
module BufferedReader {
  import opened Bytes

  function Min(a: nat, b: nat): nat { if a < b then a else b }

  class Reader {
    var buff: array<Byte>
    var fill: nat
    var at: nat
    var end: bool
    var stream: seq<Byte>

    ghost predicate Valid()
      reads this
    {
      && 0 < buff.Length
      && at <= fill <= buff.Length
      && (!end ==> fill == buff.Length)
      && (end ==> stream == [])
    }

    /** Bytes the reader will deliver from now on: the rest of the window, then the stream. */
    function Pending(): seq<Byte>
      reads this, buff
      requires Valid()
    {
      buff[at..fill] + stream
    }

    /** Opens a reader over `input` and fills its buffer for the first time. */
    constructor (input: seq<Byte>, capacity: nat)
      requires 0 < capacity
      ensures Valid() && fresh(buff) && buff.Length == capacity
      ensures at == 0 && Pending() == input
    {
      buff := new Byte[capacity];
      fill := capacity;
      at := 0;
      end := false;
      stream := input;
      new;
      var n := Fill([]);
      assert buff[..fill] == input[..Min(capacity, |input|)];
      assert input == input[..Min(capacity, |input|)] + input[Min(capacity, |input|)..];
    }

    /**
     * Moves `keep` (the source memmoves it from the buffer) to the front of the buffer and
     * reads the rest of the buffer from the stream. Refuses a retention that fills the buffer.
     */
    method Fill(keep: seq<Byte>) returns (n: nat)
      requires Valid()
      modifies this, buff
      ensures Valid() && buff == old(buff)
      ensures |keep| >= buff.Length ==>
        && n == 0 && at == old(at) && fill == old(fill) && end == old(end)
        && stream == old(stream) && buff[..] == old(buff[..])
      ensures |keep| < buff.Length ==>
        var got := Min(buff.Length - |keep|, |old(stream)|);
        && n == |keep| + got
        && at == |keep| && fill == n
        && buff[..n] == keep + old(stream)[..got]
        && stream == old(stream)[got..]
        && end == (old(end) || got < buff.Length - |keep|)
    ensures |keep| < buff.Length ==> Pending() == old(stream)
    {
      var len := |keep|;
      if len >= buff.Length {
        return 0;
      }
      var toRead := buff.Length - len;
      forall i | 0 <= i < len {
        buff[i] := keep[i];
      }
      var got := Min(toRead, |stream|);
      forall i | len <= i < len + got {
        buff[i] := stream[i - len];
      }
      assert buff[..len + got] == keep + stream[..got];
      assert buff[len..len + got] == stream[..got];
      assert stream == stream[..got] + stream[got..];
      stream := stream[got..];
      if got < toRead {
        fill := got + len;
        end := true;
      } else {
        fill := buff.Length;
      }
      at := len;
      n := got + len;
    }

    /**
     * Reads one byte; only when the window is used up it refills, keeping `keep`.
     * `filled` tells whether the buffer was refilled. A refill that brings no new byte
     * yields EOF.
     */
    method GetcKeep(keep: seq<Byte>) returns (c: Ch, filled: bool)
      requires Valid()
      modifies this, buff
      ensures Valid() && buff == old(buff)
      ensures old(at) < old(fill) ==>
        && c == old(buff[at]) && at == old(at) + 1 && !filled
        && fill == old(fill) && end == old(end) && stream == old(stream)
        && buff[..] == old(buff[..])
      ensures old(at) == old(fill) && (old(end) || |keep| >= buff.Length) ==>
        && c == EOF && !filled
        && at == old(at) && fill == old(fill) && end == old(end) && stream == old(stream)
        && buff[..] == old(buff[..])
      ensures old(at) == old(fill) && !old(end) && |keep| < buff.Length ==>
        buff[..|keep|] == keep && (filled <==> |keep| > 0 || old(stream) != [])
      ensures filled ==> at == |keep| + (if c == EOF then 0 else 1)
      ensures c != EOF ==> old(Pending()) == [c as Byte] + Pending() && 0 < at && buff[at - 1] == c
      ensures c == EOF ==> Pending() == old(Pending())
      ensures old(at) < old(fill) || |keep| < buff.Length ==> (c == EOF <==> old(Pending()) == [])
    {
      filled := false;
      if at == fill {
        if end {
          return EOF, false;
        }
        var n := Fill(keep);
        if n == 0 {
          return EOF, false;
        }
        filled := true;
        if at == fill {
          // No byte came from the stream: report the end instead of reading past `fill`.
          return EOF, true;
        }
      }
      c := Take();
    }

    /** The byte at the cursor, which moves past it (`buff[at++]`). */
    method Take() returns (c: Byte)
      requires Valid() && at < fill
      modifies this`at
      ensures Valid() && at == old(at) + 1 && c == buff[old(at)]
      ensures old(Pending()) == [c] + Pending()
    {
      c := buff[at];
      assert buff[at..fill] == [c] + buff[at + 1..fill];
      at := at + 1;
    }

    /** Reads one byte, keeping the `len` bytes before the cursor if a refill happens. */
    method Getc(len: nat) returns (c: Ch)
      requires Valid()
      modifies this, buff
      ensures Valid() && buff == old(buff)
      ensures c != EOF ==> old(Pending()) == [c as Byte] + Pending() && 0 < at && buff[at - 1] == c
      ensures c == EOF ==> Pending() == old(Pending())
      ensures len < buff.Length || old(at) < old(fill) ==> (c == EOF <==> old(Pending()) == [])
      ensures old(at) < old(fill) ==> at == old(at) + 1 && fill == old(fill) && buff[..] == old(buff[..])
      ensures c != EOF && len <= old(at) ==> len < at && buff[at - 1 - len..at] == old(buff[at - len..at]) + [c as Byte]
    {
      // When `len` exceeds the window the source's pointer lies before the buffer; a refill
      // with such a retention is refused before the pointer is used.
      var keep: seq<Byte> := if len <= fill then buff[fill - len..fill] else seq(len, _ => 0);
      var filled;
      c, filled := GetcKeep(keep);
    }

    /** Un-reads one byte. Returns 1 (and changes nothing) at the start of the window, else 0. */
    method Rewind() returns (r: int)
      requires Valid()
      modifies this`at
      ensures Valid()
      ensures old(at) == 0 ==> r == 1 && at == 0
      ensures old(at) > 0 ==> r == 0 && at == old(at) - 1 && Pending() == [buff[at]] + old(Pending())
    {
      if at == 0 {
        return 1;
      }
      at := at - 1;
      assert buff[at..fill] == [buff[at]] + buff[at + 1..fill];
      r := 0;
    }

    /** The `length` bytes that end at the cursor, or None when fewer have been read in this window. */
    function Strptr(length: nat): (r: Option<seq<Byte>>)
      reads this, buff
      requires Valid()
      ensures r.None? <==> length > at
      ensures r.Some? ==> |r.value| == length && buff[..at] == buff[..at - length] + r.value
    {
      if length > at then None else Some(buff[at - length..at])
    }
  }

  /** Reading byte by byte with any retention below the capacity yields the stream in order. */
  method ReadAll(r: Reader, k: nat) returns (out: seq<Byte>)
    requires r.Valid() && k < r.buff.Length
    modifies r, r.buff
    ensures r.Valid() && r.Pending() == []
    ensures out == old(r.Pending())
  {
    out := [];
    while true
      invariant r.Valid() && r.buff == old(r.buff)
      invariant out + r.Pending() == old(r.Pending())
      decreases |r.Pending()|
    {
      var c := r.Getc(k);
      if c == EOF {
        return;
      }
      out := out + [c as Byte];
    }
  }

  /** A rewind after a successful read makes the next read return the same byte again. */
  method RereadAfterRewind(r: Reader) returns (first: Ch, again: Ch)
    requires r.Valid()
    modifies r, r.buff
    ensures r.Valid()
    ensures first == EOF <==> old(r.Pending()) == []
    ensures first != EOF ==> again == first
  {
    first := r.Getc(0);
    again := EOF;
    if first != EOF {
      var failed := r.Rewind();
      again := r.Getc(0);
    }
  }
}
