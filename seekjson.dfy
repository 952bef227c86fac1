/**
 * The earlier draft of the scanner: a stack of `{key, idx}` records, a growable token
 * buffer filled straight from the stream, and the string and number skips. Its stream is
 * the sequence of bytes `fgetc` has yet to return.
 */
module SeekJson {
  import opened Bytes
  import JsonText

  /** The draft's value kinds. */
  datatype Kind = Object | Array | String | Number | Malformed | Eof

  /** A path frame: the key of an object frame (None for an array frame) and an array index. */
  datatype Key = Key(key: Option<seq<Byte>>, idx: nat)

  /** A doubling stack of path frames. */
  class KeyStack {
    var a: array<Key>
    var len: nat

    ghost predicate Valid()
      reads this
    {
      0 < a.Length && len <= a.Length
    }

    /** The frames, bottom first. */
    function Entries(): seq<Key>
      reads this, a
      requires Valid()
    {
      a[..len]
    }

    constructor (capacity: nat)
      requires 0 < capacity
      ensures Valid() && fresh(a) && a.Length == capacity && Entries() == []
    {
      a := new Key[capacity];
      len := 0;
    }

    /** Doubles the capacity, keeping the frames. */
    method Grow() returns (max: nat)
      requires Valid()
      modifies this
      ensures Valid() && fresh(a)
      ensures max == a.Length == 2 * old(a.Length)
      ensures len == old(len) && Entries() == old(Entries())
    {
      max := a.Length * 2;
      var grown := new Key[max];
      forall i | 0 <= i < len {
        grown[i] := a[i];
      }
      a := grown;
    }

    /** Pushes a frame, doubling the capacity exactly when the stack is full. */
    method Push(key: Key)
      requires Valid()
      modifies this, a
      ensures Valid()
      ensures Entries() == old(Entries()) + [key]
      ensures old(len) == old(a.Length) ==> fresh(a) && a.Length == 2 * old(a.Length)
      ensures old(len) < old(a.Length) ==> a == old(a)
    {
      if len == a.Length {
        var max := Grow();
      }
      a[len] := key;
      len := len + 1;
    }

    /** Removes the top frame and returns it. */
    method Pop() returns (key: Key)
      requires Valid() && 0 < len
      modifies this`len
      ensures Valid()
      ensures old(Entries()) == Entries() + [key]
    {
      len := len - 1;
      key := a[len];
    }

    /** Overwrites the top frame. */
    method Replace(key: Key)
      requires Valid() && 0 < len
      modifies a
      ensures Valid()
      ensures Entries() == old(Entries())[..len - 1] + [key]
    {
      a[len - 1] := key;
    }

    /** The top frame. */
    function GetTop(): (key: Key)
      reads this, a
      requires Valid() && 0 < len
      ensures Entries() == Entries()[..len - 1] + [key]
    {
      a[len - 1]
    }
  }

  /** Classifies the first byte of a value. */
  function GetType(c: Ch): (k: Kind)
    ensures k == Number <==> IsDigit(c) || c == MINUS
    ensures k == String <==> c == QUOTE
    ensures k == Array <==> c == LBRACKET
    ensures k == Object <==> c == LBRACE
    ensures k == Eof <==> c == EOF
    ensures k == Malformed <==> !(IsDigit(c) || c == MINUS || c == QUOTE || c == LBRACKET || c == LBRACE || c == EOF)
  {
    if IsDigit(c) then Number
    else if c == MINUS then Number
    else if c == QUOTE then String
    else if c == LBRACKET then Array
    else if c == LBRACE then Object
    else if c == EOF then Eof
    else Malformed
  }

  /** The kinds of the draft and of the scanner in their shared encoding. */
  function ScannerKind(k: Kind): JsonText.JsonType {
    match k
    case Object => JsonText.Object
    case Array => JsonText.Array
    case String => JsonText.String
    case Number => JsonText.Number
    case Malformed => JsonText.Malformed
    case Eof => JsonText.Eof
  }

  /** The draft and the scanner classify every byte the draft accepts alike. */
  lemma GetTypeAgrees(c: Ch)
    requires GetType(c) != Malformed
    ensures JsonText.GetType(c) == JsonText.Code(ScannerKind(GetType(c)))
  {
  }

  /** The end of input is regular only when no frame is open. */
  function CheckEof(depth: nat): (k: Kind)
    ensures k == Eof <==> depth == 0
    ensures k == Eof || k == Malformed
  {
    if depth == 0 then Eof else Malformed
  }

  /** The index just past the run of digits that starts at `s[i]`. */
  function DigitsFrom(s: seq<Byte>, i: nat): (j: nat)
    requires i <= |s|
    ensures i <= j <= |s|
    ensures forall k :: i <= k < j ==> IsDigit(s[k])
    ensures j < |s| ==> !IsDigit(s[j])
    decreases |s| - i
  {
    if i < |s| && IsDigit(s[i]) then DigitsFrom(s, i + 1) else i
  }

  /** The index just past an exponent whose `e` or `E` sits at `s[i - 1]`: an optional sign, then digits. */
  function ExponentEnd(s: seq<Byte>, i: nat): (j: nat)
    requires i <= |s|
    ensures i <= j <= |s|
  {
    var k := if i < |s| && (s[i] == PLUS || s[i] == MINUS) then i + 1 else i;
    DigitsFrom(s, k)
  }

  /**
   * How much of `s` continues the number whose first byte was already read: digits, then
   * optionally '.' and digits, then optionally 'e' or 'E', a sign and digits.
   */
  function NumberEnd(s: seq<Byte>): (n: nat)
    ensures n <= |s|
  {
    var b := FractionEnd(s);
    if b < |s| && (s[b] == LOWER_E || s[b] == UPPER_E) then ExponentEnd(s, b + 1) else b
  }

  /** The index past the digits and the optional '.' and digits that open a number. */
  function FractionEnd(s: seq<Byte>): (b: nat)
    ensures b <= |s|
  {
    var a := DigitsFrom(s, 0);
    if a < |s| && s[a] == DOT then DigitsFrom(s, a + 1) else a
  }

  /**
   * A number is written with digits, '.', 'e', 'E' and signs only, and a digit never
   * follows it.
   */
  lemma NumberEndBytes(s: seq<Byte>)
    ensures forall i :: 0 <= i < NumberEnd(s) ==>
      IsDigit(s[i]) || s[i] == DOT || s[i] == LOWER_E || s[i] == UPPER_E || s[i] == PLUS || s[i] == MINUS
    ensures NumberEnd(s) < |s| ==> !IsDigit(s[NumberEnd(s)])
  {
    var a := DigitsFrom(s, 0);
    var b := FractionEnd(s);
    if b < |s| && (s[b] == LOWER_E || s[b] == UPPER_E) {
      var k := if b + 1 < |s| && (s[b + 1] == PLUS || s[b + 1] == MINUS) then b + 2 else b + 1;
      assert NumberEnd(s) == DigitsFrom(s, k);
    }
  }

  /** Every byte of a number continues a number for the scanner's `in_num` too. */
  lemma NumberEndInNum(s: seq<Byte>)
    ensures forall i :: 0 <= i < NumberEnd(s) ==> JsonText.InNum(s[i])
  {
    NumberEndBytes(s);
    forall i | 0 <= i < NumberEnd(s)
      ensures JsonText.InNum(s[i])
    {
      JsonText.InNumClasses(s[i]);
    }
  }

  /**
   * `scan_number` as written: `c == '+' || '-'` is always true, so the byte after the
   * 'e' is always dropped, and the digit loop then reads again before testing.
   */
  function ScanNumberAsWritten(s: seq<Byte>): (r: Read)
    ensures !IsDigit(r.c)
    ensures |r.rest| <= |s|
  {
    var m := JsonText.Eaten(IsDigit, ZERO, s);
    var f := if m.c == DOT then JsonText.Eaten(IsDigit, ZERO, m.rest) else m;
    if f.c == LOWER_E || f.c == UPPER_E then
      var x := Get(f.rest);
      var y := Get(x.rest);
      JsonText.Eaten(IsDigit, ZERO, y.rest)
    else f
  }

  /** After "1", the input "e5,2" shows the defect: the ',' is skipped over as written. */
  lemma ScanNumberSignTest()
    ensures var s := [LOWER_E, ZERO + 5, COMMA, ZERO + 2];
      && ScanNumberAsWritten(s) == Read(EOF, [])
      && NumberEnd(s) == 2 && Get(s[NumberEnd(s)..]) == Read(COMMA, [ZERO + 2])
  {
    var s := [LOWER_E, ZERO + 5, COMMA, ZERO + 2];
    assert JsonText.Eaten(IsDigit, ZERO, s) == Read(LOWER_E, s[1..]);
    assert JsonText.Eaten(IsDigit, ZERO, [ZERO + 2]) == Read(EOF, []);
    assert DigitsFrom(s, 0) == 0;
    assert DigitsFrom(s, 1) == 2;
  }

  /** The draft scanner: its unread input, its path stack and its token buffer. */
  class Draft {
    var stream: seq<Byte>
    var buff: array<Byte>
    const stack: KeyStack

    ghost predicate Valid()
      reads this, stack
    {
      0 < buff.Length && stack.Valid()
    }

    constructor (input: seq<Byte>, buffsize: nat)
      requires 0 < buffsize
      ensures Valid() && fresh(buff) && fresh(stack)
      ensures stream == input && buff.Length == buffsize && stack.Entries() == []
    {
      stream := input;
      buff := new Byte[buffsize];
      stack := new KeyStack(16);
    }

    /** The read byte `c` sits at `s0[p]` (EOF at the end) and the stream holds what follows it. */
    ghost predicate Delivered(s0: seq<Byte>, p: nat, c: Ch)
      reads this
    {
      p <= |s0| && if p < |s0| then c == s0[p] && stream == s0[p + 1..] else c == EOF && stream == []
    }

    /** `fgetc`, reading `s0[p]`: the next byte, or EOF once the input is exhausted. */
    method Fgetc(ghost s0: seq<Byte>, ghost p: nat) returns (c: Ch)
      requires p <= |s0| && stream == s0[p..]
      modifies this`stream
      ensures Delivered(s0, p, c)
    {
      if stream == [] {
        c := EOF;
      } else {
        c := stream[0];
        stream := stream[1..];
      }
    }

    /** Doubles the token buffer, keeping its bytes. */
    method GrowBuffer() returns (newSize: nat)
      modifies this`buff
      ensures fresh(buff) && newSize == buff.Length == 2 * old(buff.Length)
      ensures forall k :: 0 <= k < old(buff.Length) ==> buff[k] == old(buff[k])
    {
      newSize := buff.Length * 2;
      var grown := new Byte[newSize];
      forall k | 0 <= k < buff.Length {
        grown[k] := buff[k];
      }
      buff := grown;
    }

    /** Stores `c` at `idx`, doubling the buffer exactly when `idx` is its size. */
    method AddCharToBuffer(idx: nat, c: Byte)
      requires 0 < buff.Length && idx <= buff.Length
      modifies this`buff, buff
      ensures buff.Length == if old(idx == buff.Length) then 2 * old(buff.Length) else old(buff.Length)
      ensures if old(idx == buff.Length) then fresh(buff) else buff == old(buff)
      ensures forall k :: 0 <= k < idx ==> buff[k] == old(buff[k])
      ensures buff[idx] == c
    {
      if idx == buff.Length {
        var newSize := GrowBuffer();
      }
      buff[idx] := c;
    }

    /** The token buffer still begins with the `start` bytes of `b0`. */
    ghost predicate Kept(b0: seq<Byte>, start: nat)
      reads this, buff
    {
      start < buff.Length && start <= |b0| && forall k :: 0 <= k < start ==> buff[k] == b0[k]
    }

    /** The token buffer holds a quote at `start`, then `s0[..p]`, and `len` is the index past them. */
    ghost predicate Written(b0: seq<Byte>, start: nat, len: nat, s0: seq<Byte>, p: nat)
      reads this, buff
    {
      && Kept(b0, start) && start < len <= buff.Length && p <= |s0| && len == start + 1 + p
      && buff[start] == QUOTE
      && (forall k :: start < k < len ==> buff[k] == s0[k - start - 1])
    }

    /**
     * `add_string_to_buffer`, after the opening quote: writes the quote at `start`, then the
     * string's bytes (escapes kept as they are) and the closing quote, and returns the index
     * past it; 0 when the input ends first.
     */
    method AddStringToBuffer(start: nat) returns (len: nat)
      requires start < buff.Length
      modifies this`buff, this`stream, buff
      ensures start < buff.Length && buff[..start] == old(buff[..start])
      ensures var s0 := old(stream); var e := JsonText.StringEnd(s0);
        && (e.None? ==> len == 0 && stream == [])
        && (e.Some? ==> len == start + 1 + e.value <= buff.Length
                        && buff[start..len] == [QUOTE] + s0[..e.value]
                        && stream == s0[e.value..])
    {
      ghost var s0 := stream;
      ghost var b0 := buff[..];
      buff[start] := QUOTE;
      len := start + 1;
      ghost var p: nat := 0;
      var c := Fgetc(s0, p);
      while c != QUOTE
        invariant Delivered(s0, p, c) && JsonText.StringEndAt(s0, p) == JsonText.StringEnd(s0)
        invariant (buff == old(buff) || fresh(buff)) && Kept(b0, start)
        invariant c != EOF ==> Written(b0, start, len, s0, p)
        decreases |s0| - p, if c == EOF then 0 else 1
      {
        if c == EOF {
          assert buff[..start] == b0[..start];
          return 0;
        }
        len, c, p := AddStringStep(b0, start, len, c, s0, p);
      }
      AppendDelivered(b0, start, len, c, s0, p);
      len := len + 1;
      WrittenBytes(b0, start, len, s0, p + 1);
    }

    /** What `Written` says, as sequences. */
    lemma WrittenBytes(b0: seq<Byte>, start: nat, len: nat, s0: seq<Byte>, p: nat)
      requires Written(b0, start, len, s0, p)
      ensures buff[..start] == b0[..start]
      ensures buff[start..len] == [QUOTE] + s0[..p]
    {
    }

    /** Appends `s0[p]`, the byte just read, to a token that holds `s0[..p]`. */
    method AppendDelivered(ghost b0: seq<Byte>, start: nat, len: nat, c: Ch, ghost s0: seq<Byte>, ghost p: nat)
      requires p < |s0| && c == s0[p] && Written(b0, start, len, s0, p)
      modifies this`buff, buff
      ensures (buff == old(buff) || fresh(buff)) && Written(b0, start, len + 1, s0, p + 1)
    {
      AddCharToBuffer(len, c as Byte);
    }

    /** One turn of `add_string_to_buffer`'s loop, after a byte that neither ends nor breaks the string. */
    method AddStringStep(ghost b0: seq<Byte>, start: nat, len: nat, c: Ch, ghost s0: seq<Byte>, ghost p: nat)
      returns (len': nat, c': Ch, ghost p': nat)
      requires c != EOF && c != QUOTE && Delivered(s0, p, c) && Written(b0, start, len, s0, p)
      requires JsonText.StringEndAt(s0, p) == JsonText.StringEnd(s0)
      modifies this`buff, this`stream, buff
      ensures (buff == old(buff) || fresh(buff)) && Kept(b0, start)
      ensures p < p' <= |s0| && Delivered(s0, p', c')
      ensures JsonText.StringEndAt(s0, p') == JsonText.StringEnd(s0)
      ensures c' != EOF ==> Written(b0, start, len', s0, p')
    {
      AppendDelivered(b0, start, len, c, s0, p);
      len' := len + 1;
      p' := p + 1;
      if c == BACKSLASH {
        var escaped := Fgetc(s0, p');
        if escaped != EOF {
          AppendDelivered(b0, start, len', escaped, s0, p');
          p' := p' + 1;
        } else {
          AddCharToBuffer(len', ToByte(escaped));
        }
        len' := len' + 1;
      }
      c' := Fgetc(s0, p');
    }

    /** `scan_string`, after the opening quote: skips through the closing quote; false when the input ends first. */
    method ScanString() returns (closed: bool)
      modifies this`stream
      ensures closed <==> JsonText.StringEnd(old(stream)).Some?
      ensures closed ==> stream == old(stream)[JsonText.StringEnd(old(stream)).value..]
      ensures !closed ==> stream == []
    {
      ghost var s0 := stream;
      ghost var p: nat := 0;
      var c := Fgetc(s0, p);
      while c != QUOTE
        invariant Delivered(s0, p, c) && JsonText.StringEndAt(s0, p) == JsonText.StringEnd(s0)
        decreases |s0| - p, if c == EOF then 0 else 1
      {
        if c == EOF {
          return false;
        }
        p := p + 1;
        if c == BACKSLASH {
          var escaped := Fgetc(s0, p);
          if escaped != EOF {
            p := p + 1;
          }
        }
        c := Fgetc(s0, p);
      }
      return true;
    }

    /** `while (isdigit(c)) c = fgetc(stream);` from the byte at `s0[p]`: the byte past the digit run. */
    method SkipDigits(ghost s0: seq<Byte>, ghost p: nat, c: Ch) returns (d: Ch)
      requires Delivered(s0, p, c)
      modifies this`stream
      ensures Delivered(s0, DigitsFrom(s0, p), d)
    {
      ghost var n := p;
      d := c;
      while IsDigit(d)
        invariant p <= n <= DigitsFrom(s0, p) && Delivered(s0, n, d)
        invariant DigitsFrom(s0, n) == DigitsFrom(s0, p)
        decreases |s0| - n
      {
        n := n + 1;
        d := Fgetc(s0, n);
      }
    }

    /**
     * `scan_number` with the sign test corrected, after the number's first byte: skips the
     * number and returns the byte right after it, the delimiter handed on to `set_next_key`.
     */
    method ScanNumber() returns (c: Ch)
      modifies this`stream
      ensures Delivered(old(stream), NumberEnd(old(stream)), c)
    {
      ghost var s0 := stream;
      c := ScanFraction(s0);
      ghost var b := FractionEnd(s0);
      if c == LOWER_E || c == UPPER_E {
        assert b < |s0| && s0[b] == c;
        c := ScanExponent(s0, b + 1);
      }
    }

    /** The digits and the optional '.' and digits that open `scan_number`. */
    method ScanFraction(ghost s0: seq<Byte>) returns (c: Ch)
      requires stream == s0
      modifies this`stream
      ensures Delivered(s0, FractionEnd(s0), c)
    {
      c := Fgetc(s0, 0);
      c := SkipDigits(s0, 0, c);
      ghost var a := DigitsFrom(s0, 0);
      if c == DOT {
        c := Fgetc(s0, a + 1);
        c := SkipDigits(s0, a + 1, c);
      }
    }

    /** The exponent part of `scan_number`, after the 'e' or 'E' at `s0[i - 1]`: an optional sign, then digits. */
    method ScanExponent(ghost s0: seq<Byte>, ghost i: nat) returns (c: Ch)
      requires i <= |s0| && stream == s0[i..]
      modifies this`stream
      ensures Delivered(s0, ExponentEnd(s0, i), c)
    {
      ghost var k := i;
      c := Fgetc(s0, k);
      if c == PLUS || c == MINUS {
        k := k + 1;
        c := Fgetc(s0, k);
      }
      c := SkipDigits(s0, k, c);
    }

    /** `scan_array`: opens an array frame. */
    method ScanArray() returns (k: Kind)
      requires Valid()
      modifies stack, stack.a
      ensures Valid() && k == Array
      ensures stack.Entries() == old(stack.Entries()) + [Key(None, 0)]
    {
      stack.Push(Key(None, 0));
      k := Array;
    }
  }
}
