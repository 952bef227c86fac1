/**
 * The structural scanner over the buffered reader: the reading loops for whitespace,
 * numbers and string literals, the key-keeping read, and the scanner whose steps are
 * proved against the reference semantics in JsonText.
 */
module ScanJson {
  import opened Bytes
  import opened BufferedReader
  import opened Strings
  import opened ObjStacks
  import opened JsonText

  /** The reader has delivered the first `used` bytes of `p0`, and will deliver the rest. */
  ghost predicate Consumed(r: Reader, p0: seq<Byte>, used: nat)
    reads r, r.buff
  {
    r.Valid() && used <= |p0| && r.Pending() == p0[used..]
  }

  /** The `|w|` bytes before the cursor are `w`. */
  ghost predicate Window(r: Reader, w: seq<Byte>)
    reads r, r.buff
  {
    r.Valid() && |w| <= r.at && r.buff[r.at - |w|..r.at] == w
  }

  /**
   * One read keeping `k` bytes, as seen by a loop that tracks how much of `p0` it has read
   * (`used` before, `next` after) and which bytes end at the cursor (`w0` and the bytes read).
   */
  method ReadKept(r: Reader, k: nat, ghost p0: seq<Byte>, ghost used: nat, ghost w0: seq<Byte>)
    returns (c: Ch, ghost next: nat)
    requires Consumed(r, p0, used)
    modifies r, r.buff
    ensures r.buff == old(r.buff) && Consumed(r, p0, next)
    ensures c != EOF ==> used < |p0| && c == p0[used] && next == used + 1
    ensures c == EOF ==> next == used
    ensures k < r.buff.Length ==> (c == EOF <==> used == |p0|)
    ensures c != EOF && |w0| + used == k && old(Window(r, w0 + p0[..used])) ==> Window(r, w0 + p0[..next])
  {
    c := r.Getc(k);
    next := used;
    if c != EOF {
      assert p0[used..] == [c as Byte] + r.Pending();
      assert p0[used + 1..] == p0[used..][1..];
      assert p0[..used + 1] == p0[..used] + [p0[used]];
      next := used + 1;
    }
  }

  /** One read keeping nothing, as seen by a loop that has read the first `used` bytes of `p0`. */
  method ReadFrom(r: Reader, ghost p0: seq<Byte>, ghost used: nat) returns (c: Ch, ghost next: nat)
    requires Consumed(r, p0, used)
    modifies r, r.buff
    ensures r.buff == old(r.buff) && Consumed(r, p0, next)
    ensures c != EOF ==> used < |p0| && c == p0[used] && next == used + 1
    ensures c == EOF ==> used == |p0| && next == used
  {
    c := r.Getc(0);
    next := used;
    if c != EOF {
      assert p0[used..] == [c as Byte] + r.Pending();
      assert p0[used + 1..] == p0[used..][1..];
      next := used + 1;
    }
  }

  /** `eat_while`: reads while `cond` holds of the current byte, keeping nothing. */
  method EatWhile(cond: Ch -> bool, r: Reader, c: Ch) returns (d: Ch)
    requires r.Valid() && !cond(EOF)
    modifies r, r.buff
    ensures r.Valid() && r.buff == old(r.buff)
    ensures Read(d, r.Pending()) == Eaten(cond, c, old(r.Pending()))
    ensures cond(c) && d != EOF ==> 0 < r.at && r.buff[r.at - 1] == d
  {
    ghost var moved := false;
    d := c;
    while cond(d)
      invariant r.Valid() && r.buff == old(r.buff)
      invariant Eaten(cond, d, r.Pending()) == Eaten(cond, c, old(r.Pending()))
      invariant moved && d != EOF ==> 0 < r.at && r.buff[r.at - 1] == d
      invariant !moved ==> d == c
      decreases |r.Pending()|, if cond(d) then 1 else 0
    {
      ghost var p := r.Pending();
      d := r.Getc(0);
      moved := true;
      assert Eaten(cond, d, r.Pending()) == Eaten(cond, d, Get(p).rest);
    }
  }

  /**
   * One read of `keep_while`'s loop, keeping the `n` bytes read so far: `goal` is what the
   * whole loop will yield, and it stays in reach from the new byte unless a read with a
   * retention beyond the capacity returned EOF.
   */
  method KeepWhileStep(cond: Ch -> bool, r: Reader, d: Ch, n: nat, ghost goal: Read, ghost p0: seq<Byte>, ghost used: nat)
    returns (d': Ch, ghost used': nat)
    requires !cond(EOF) && cond(d)
    requires Consumed(r, p0, used) && Eaten(cond, d, r.Pending()) == goal
    modifies r, r.buff
    ensures r.buff == old(r.buff) && Consumed(r, p0, used')
    ensures d' != EOF ==> used' == used + 1
    ensures d' == EOF ==> used' == used
    ensures d' != EOF || n < r.buff.Length ==> Eaten(cond, d', r.Pending()) == goal
  {
    ghost var p := r.Pending();
    d', used' := ReadKept(r, n, p0, used, []);
    if d' != EOF {
      assert Eaten(cond, d', r.Pending()) == Eaten(cond, d', Get(p).rest);
    } else if n < r.buff.Length {
      assert p == [] && r.Pending() == [];
      assert Eaten(cond, d, p) == Eaten(cond, EOF, []);
    }
  }

  /**
   * `keep_while`: like `eat_while`, but every read asks the reader to keep all bytes read
   * since the call (and the `len` bytes before it); `n` is `len` plus the number of reads.
   */
  method KeepWhile(cond: Ch -> bool, r: Reader, c: Ch, len: nat) returns (d: Ch, n: nat)
    requires r.Valid() && !cond(EOF)
    modifies r, r.buff
    ensures r.Valid() && r.buff == old(r.buff)
    ensures d != EOF || n <= r.buff.Length ==>
      Read(d, r.Pending()) == Eaten(cond, c, old(r.Pending()))
    ensures |r.Pending()| <= |old(r.Pending())|
    ensures old(r.Pending()) == old(r.Pending())[..|old(r.Pending())| - |r.Pending()|] + r.Pending()
    ensures d != EOF ==> n == len + |old(r.Pending())| - |r.Pending()|
  {
    ghost var p0 := r.Pending();
    ghost var goal := Eaten(cond, c, p0);
    ghost var used: nat := 0;
    d, n := c, len;
    while cond(d)
      invariant Consumed(r, p0, used) && r.buff == old(r.buff)
      invariant d != EOF ==> n == len + used
      invariant d != EOF || n <= r.buff.Length ==> Eaten(cond, d, r.Pending()) == goal
      decreases |p0| - used + if cond(d) then 1 else 0
    {
      d, used := KeepWhileStep(cond, r, d, n, goal, p0, used);
      n := n + 1;
    }
    assert p0 == p0[..used] + r.Pending();
  }

  /** One turn of `eat_jstring`'s loop, after a byte `c` at `used - 1` that neither ends nor breaks the string. */
  method EatJStringStep(r: Reader, c: Ch, ghost p0: seq<Byte>, ghost used: nat) returns (c': Ch, ghost used': nat)
    requires Consumed(r, p0, used) && c != EOF && c != QUOTE
    requires 0 < used && c == p0[used - 1] && StringEndAt(p0, used - 1) == StringEnd(p0)
    modifies r, r.buff
    ensures r.buff == old(r.buff) && Consumed(r, p0, used') && used <= used'
    ensures c' != EOF ==> used < used' && 0 < used' && c' == p0[used' - 1] && StringEndAt(p0, used' - 1) == StringEnd(p0)
    ensures c' == EOF ==> used' == |p0| && StringEndAt(p0, used') == StringEnd(p0)
  {
    used' := used;
    if c == BACKSLASH {
      var escaped;
      escaped, used' := ReadKept(r, 0, p0, used', []);
    }
    c', used' := ReadKept(r, 0, p0, used', []);
  }

  /** `eat_jstring`, after the opening quote: skips through the closing quote. */
  method EatJString(r: Reader) returns (t: JsonType)
    requires r.Valid()
    modifies r, r.buff
    ensures r.Valid() && r.buff == old(r.buff)
    ensures t == String || t == Malformed
    ensures t == String <==> StringEnd(old(r.Pending())).Some?
    ensures t == String ==> r.Pending() == old(r.Pending())[StringEnd(old(r.Pending())).value..]
    ensures t == Malformed ==> r.Pending() == []
  {
    ghost var p0 := r.Pending();
    ghost var used: nat := 0;
    var c;
    c, used := ReadKept(r, 0, p0, used, []);
    while c != QUOTE
      invariant Consumed(r, p0, used) && r.buff == old(r.buff)
      invariant c != EOF ==> 0 < used && c == p0[used - 1] && StringEndAt(p0, used - 1) == StringEnd(p0)
      invariant c == EOF ==> used == |p0| && StringEndAt(p0, used) == StringEnd(p0)
      decreases |p0| - used + if c == EOF then 0 else 1
    {
      if c == EOF {
        return Malformed;
      }
      c, used := EatJStringStep(r, c, p0, used);
    }
    return String;
  }

  /**
   * What `keep_jstring` knows at the head of its loop: `c`, the byte just read, sits at
   * `used - 1` in `p0`; when every read stays below the capacity (`bounded`), the token so
   * far is `len` bytes long, the string ends where it would from `c` on, and the token ends
   * at the cursor, after the `w0` bytes that preceded it.
   */
  ghost predicate KeptSoFar(r: Reader, p0: seq<Byte>, used: nat, c: Ch, len: nat,
                            bounded: bool, fits: bool, w0: seq<Byte>)
    reads r, r.buff
  {
    && Consumed(r, p0, used)
    && (c != EOF ==> 0 < used && c == p0[used - 1])
    && (bounded && c != EOF ==> len == used && StringEndAt(p0, used - 1) == StringEnd(p0))
    && (bounded && c == EOF ==> used == |p0| && StringEnd(p0).None?)
    && (fits && bounded && c != EOF ==> Window(r, w0 + p0[..used]))
  }

  /** Reads every byte up to the terminator is kept below the capacity. */
  ghost predicate Bounded(p0: seq<Byte>, keep: nat, capacity: nat) {
    keep + (match StringEnd(p0) case Some(n) => n case None => |p0| + 1) < capacity
  }

  /**
   * One turn of `keep_jstring`'s loop after a byte that neither ends nor breaks the string.
   * The byte after a backslash is read keeping only the token so far, without the `keep`
   * bytes before it; the window is tracked (`fits`) only when `keep` is 0.
   */
  method KeepJStringStep(r: Reader, keep: nat, len: nat, c: Ch, ghost p0: seq<Byte>, ghost used: nat,
                         ghost fits: bool, ghost w0: seq<Byte>)
    returns (len': nat, c': Ch, ghost used': nat)
    requires c != EOF && c != QUOTE
    requires KeptSoFar(r, p0, used, c, len, Bounded(p0, keep, r.buff.Length), fits, w0)
    requires fits ==> keep == 0 && |w0| == 1
    modifies r, r.buff
    ensures r.buff == old(r.buff)
    ensures KeptSoFar(r, p0, used', c', len', Bounded(p0, keep, r.buff.Length), fits, w0)
    ensures used <= used' && (c' != EOF ==> used < used')
  {
    ghost var u := used;
    len' := len;
    if c == BACKSLASH {
      len' := len' + 1;
      var escaped;
      escaped, u := ReadKept(r, len', p0, u, w0);
    }
    len' := len' + 1;
    c', used' := ReadKept(r, keep + len', p0, u, w0);
  }

  /** The loop of `keep_jstring`: stops at the first unescaped quote or at EOF. */
  method KeepJStringLoop(r: Reader, keep: nat, ghost p0: seq<Byte>, ghost fits: bool, ghost w0: seq<Byte>)
    returns (len: nat, c: Ch, ghost used: nat)
    requires Consumed(r, p0, 0) && (fits ==> keep == 0 && |w0| == 1 && Window(r, w0))
    modifies r, r.buff
    ensures r.buff == old(r.buff) && (c == QUOTE || c == EOF)
    ensures KeptSoFar(r, p0, used, c, len, Bounded(p0, keep, r.buff.Length), fits, w0)
  {
    ghost var bounded := Bounded(p0, keep, r.buff.Length);
    len := 1;
    assert w0 + p0[..0] == w0;
    c, used := ReadKept(r, keep + len, p0, 0, w0);
    while c != QUOTE && c != EOF
      invariant KeptSoFar(r, p0, used, c, len, bounded, fits, w0) && r.buff == old(r.buff)
      decreases |p0| - used + if c == EOF then 0 else 1
    {
      len, c, used := KeepJStringStep(r, keep, len, c, p0, used, fits, w0);
    }
  }

  /**
   * `keep_jstring`, after the opening quote: reads through the closing quote, asking every
   * read to keep the `keep` bytes before the quote, the quote and the token so far, and
   * returns the token's length with both quotes. With `keep` 0 the token then ends at the
   * cursor.
   */
  method KeepJString(r: Reader, keep: nat) returns (len: nat)
    requires r.Valid()
    modifies r, r.buff
    ensures r.Valid() && r.buff == old(r.buff)
    ensures var p0 := old(r.Pending()); var e := StringEnd(p0);
      e.Some? && keep + e.value < r.buff.Length ==>
        && len == 1 + e.value
        && r.Pending() == p0[e.value..]
        && (keep == 0 && 0 < old(r.at) ==> Window(r, [old(r.buff[r.at - 1])] + p0[..e.value]))
    ensures var p0 := old(r.Pending());
      StringEnd(p0).None? && keep + |p0| + 1 < r.buff.Length ==> r.Pending() == []
  {
    ghost var p0 := r.Pending();
    ghost var fits := keep == 0 && 0 < r.at;
    ghost var w0: seq<Byte> := if fits then [r.buff[r.at - 1]] else [];
    var c;
    ghost var used;
    len, c, used := KeepJStringLoop(r, keep, p0, fits, w0);
    KeptEnds(r, p0, used, c, len, keep, fits, w0);
    if c == EOF {
      len := if len == 0 then 0 else len - 1;
    } else {
      len := len + 1;
    }
    ghost var e := StringEnd(p0);
    if e.Some? && keep + e.value < r.buff.Length {
      assert c == QUOTE && len == 1 + e.value && r.Pending() == p0[e.value..];
      assert fits ==> Window(r, w0 + p0[..e.value]);
    }
  }

  /** Where `keep_jstring`'s loop stops: at the closing quote when the literal ends, and at EOF otherwise. */
  lemma KeptEnds(r: Reader, p0: seq<Byte>, used: nat, c: Ch, len: nat, keep: nat, fits: bool, w0: seq<Byte>)
    requires c == QUOTE || c == EOF
    requires KeptSoFar(r, p0, used, c, len, Bounded(p0, keep, r.buff.Length), fits, w0)
    ensures var e := StringEnd(p0);
      e.Some? && keep + e.value < r.buff.Length ==>
        c == QUOTE && e.value == used == len && r.Pending() == p0[used..] && (fits ==> Window(r, w0 + p0[..used]))
    ensures StringEnd(p0).None? && keep + |p0| + 1 < r.buff.Length ==> r.Pending() == []
  {
    if Bounded(p0, keep, r.buff.Length) && c == QUOTE {
      assert StringEndAt(p0, used - 1) == Some(used);
    }
  }

  /**
   * `getc_for_string`: reads one byte keeping the bytes of `s`; when that read refilled the
   * buffer, `s` is re-pointed at the moved copy at the front, so its bytes never change.
   */
  method GetcForString(r: Reader, s: String) returns (c: Ch)
    requires r.Valid() && s.Valid() && !s.onHeap
    modifies r, r.buff, s
    ensures r.Valid() && r.buff == old(r.buff)
    ensures s.Valid() && !s.onHeap
    ensures s.Bytes() == old(s.Bytes())
    ensures s.len == old(s.len)
    ensures (s.a == old(s.a) && s.off == old(s.off)) || (s.a == r.buff && s.off == 0)
    ensures c != EOF ==> old(r.Pending()) == [c as Byte] + r.Pending()
    ensures c == EOF ==> r.Pending() == old(r.Pending())
    ensures old(s.len) < r.buff.Length || old(r.at) < old(r.fill) ==> (c == EOF <==> old(r.Pending()) == [])
  {
    var len := s.len;
    ghost var kept := s.Bytes();
    var update;
    c, update := r.GetcKeep(s.Bytes());
    if update {
      assert r.buff[..len] == kept;
      // After a refill the kept bytes start the buffer; the source finds them just before
      // the byte it read. A refill that brought no byte leaves them there all the same.
      var start := match r.Strptr(len + 1) case Some(_) => r.at - len - 1 case None => 0;
      assert start == 0;
      s.Update(r.buff, start, len);
      assert s.Bytes() == r.buff[..len];
    } else if len > 0 {
      assert r.buff[..] == old(r.buff[..]);
      assert s.a[..] == old(s.a[..]);
    }
  }

  /** `build_while`: `eat_while` that keeps the bytes of `s` across every read. */
  method BuildWhile(cond: Ch -> bool, r: Reader, c: Ch, s: String) returns (d: Ch)
    requires r.Valid() && s.Valid() && !s.onHeap && !cond(EOF)
    modifies r, r.buff, s
    ensures r.Valid() && r.buff == old(r.buff)
    ensures s.Valid() && !s.onHeap
    ensures s.Bytes() == old(s.Bytes())
    ensures old(s.len) < r.buff.Length ==>
      Read(d, r.Pending()) == Eaten(cond, c, old(r.Pending()))
    ensures old(r.Pending()) == [] ==> r.Pending() == [] && (cond(c) ==> d == EOF)
  {
    d := c;
    while cond(d)
      invariant r.Valid() && r.buff == old(r.buff)
      invariant s.Valid() && !s.onHeap
      invariant s.Bytes() == old(s.Bytes())
      invariant old(s.len) < r.buff.Length ==>
        Eaten(cond, d, r.Pending()) == Eaten(cond, c, old(r.Pending()))
      invariant old(r.Pending()) == [] ==> r.Pending() == [] && (d != c ==> d == EOF)
      decreases |r.Pending()|, if cond(d) then 1 else 0
    {
      ghost var p := r.Pending();
      d := GetcForString(r, s);
      if old(s.len) < r.buff.Length {
        assert Eaten(cond, d, r.Pending()) == Eaten(cond, d, Get(p).rest);
      }
    }
  }

  /**
   * `build_jstring`, after the opening quote: measures the string literal, keeping it in the
   * buffer, and points `s` at it, quotes included. An unterminated literal consumes the
   * input; `keep_jstring` then counts one byte less than it read after the quote, and `s` is
   * pointed at that many bytes before the cursor (for `"ab` at the end of the input, `ab`).
   * This contract states the consumed input only.
   */
  method BuildJString(r: Reader, s: String)
    requires r.Valid() && s.Valid() && !s.onHeap
    modifies r, r.buff, s
    ensures r.Valid() && r.buff == old(r.buff) && s.Valid() && !s.onHeap
    ensures var p0 := old(r.Pending()); var e := StringEnd(p0);
      e.Some? && e.value < r.buff.Length && 0 < old(r.at) ==>
        && s.Bytes() == [old(r.buff[r.at - 1])] + p0[..e.value]
        && r.Pending() == p0[e.value..]
    ensures var p0 := old(r.Pending());
      StringEnd(p0).None? && |p0| + 1 < r.buff.Length ==> r.Pending() == []
  {
    ghost var p0 := r.Pending();
    ghost var e := StringEnd(p0);
    ghost var ok := e.Some? && e.value < r.buff.Length && 0 < r.at;
    ghost var token := if ok then [r.buff[r.at - 1]] + p0[..e.value] else [];
    var len := KeepJString(r, 0);
    if ok {
      WindowIsStrptr(r, token);
    }
    UpdateFromReader(r, s, len);
  }

  /** The bytes a window names are the ones `br_strptr` points at. */
  lemma WindowIsStrptr(r: Reader, w: seq<Byte>)
    requires Window(r, w)
    ensures r.Strptr(|w|) == Some(w)
  {
  }

  /**
   * `update_string(s, br_strptr(r, len), len)`: points `s` at the `len` bytes before the
   * cursor. When fewer have been read the source passes a null pointer; `s` is left alone.
   */
  method UpdateFromReader(r: Reader, s: String, len: nat)
    requires r.Valid() && s.Valid() && !s.onHeap
    modifies s
    ensures s.Valid() && !s.onHeap
    ensures r.Strptr(len).Some? ==> s.Bytes() == r.Strptr(len).value
    ensures r.Strptr(len).None? ==> s.Bytes() == old(s.Bytes())
  {
    match r.Strptr(len)
    case Some(_) =>
      s.Update(r.buff, r.at - len, len);
    case None =>
  }

  /** The whitespace after a key token, read keeping the token (`token`) that `s` points at. */
  method SpacesAfterToken(r: Reader, s: String, ghost token: seq<Byte>, ghost mid: seq<Byte>) returns (c: Ch)
    requires r.Valid() && s.Valid() && !s.onHeap && s.Bytes() == token && r.Pending() == mid
    modifies r, r.buff, s
    ensures r.Valid() && r.buff == old(r.buff) && s.Valid() && !s.onHeap && s.Bytes() == token
    ensures |token| < r.buff.Length ==> Read(c, r.Pending()) == Eaten(IsSpace, SPACE, mid)
    ensures mid == [] ==> c == EOF && r.Pending() == []
  {
    c := BuildWhile(IsSpace, r, SPACE, s);
    assert IsSpace(SPACE);
  }

  /**
   * The key token of an object member, after its opening quote: `build_jstring` points `s`
   * at the string literal, quotes included, then whitespace is read keeping it. Yields the
   * first byte after the whitespace.
   */
  method KeyToken(r: Reader, s: String) returns (c: Ch)
    requires r.Valid() && s.Valid() && !s.onHeap && 0 < r.at && r.buff[r.at - 1] == QUOTE
    modifies r, r.buff, s
    ensures r.Valid() && r.buff == old(r.buff) && s.Valid() && !s.onHeap
    ensures var p0 := old(r.Pending()); var e := StringEnd(p0);
      e.Some? && 1 + e.value < r.buff.Length ==>
        && s.Bytes() == [QUOTE] + p0[..e.value]
        && Read(c, r.Pending()) == Eaten(IsSpace, SPACE, p0[e.value..])
    ensures var p0 := old(r.Pending());
      StringEnd(p0).None? && |p0| + 1 < r.buff.Length ==> c == EOF && r.Pending() == []
  {
    ghost var p0 := r.Pending();
    ghost var e := StringEnd(p0);
    BuildJString(r, s);
    ghost var token := s.Bytes();
    ghost var mid := r.Pending();
    assert e.Some? && 1 + e.value < r.buff.Length ==> token == [QUOTE] + p0[..e.value] && mid == p0[e.value..];
    assert e.None? && |p0| + 1 < r.buff.Length ==> mid == [];
    c := SpacesAfterToken(r, s, token, mid);
  }

  /** A string met while skipping a container: read to its closing quote. */
  method SkipQuoted(r: Reader, ghost p0: seq<Byte>, ghost used: nat) returns (eof: bool, ghost used': nat)
    requires Consumed(r, p0, used)
    modifies r, r.buff
    ensures r.buff == old(r.buff) && Consumed(r, p0, used')
    ensures eof <==> StringEndAt(p0, used).None?
    ensures eof ==> r.Pending() == []
    ensures !eof ==> used' == StringEndAt(p0, used).value
  {
    ghost var before := p0[..used];
    assert p0 == before + p0[used..];
    StringEndShift(before, p0[used..], 0);
    var t := EatJString(r);
    eof := t != String;
    used' := if t == String then used + StringEnd(p0[used..]).value else |p0|;
  }

  /** One turn of the skipping loop of `pass_object`: a closer, a string, an opener or any other byte. */
  method SkipStep(r: Reader, stops: seq<Byte>, ghost p0: seq<Byte>, ghost used: nat)
    returns (eof: bool, stops': seq<Byte>, ghost used': nat)
    requires Consumed(r, p0, used) && stops != []
    modifies r, r.buff
    ensures r.buff == old(r.buff) && Consumed(r, p0, used')
    ensures eof ==> SkipToAt(stops, p0, used).None? && r.Pending() == []
    ensures !eof ==> used < used' && SkipToAt(stops', p0, used') == SkipToAt(stops, p0, used)
  {
    var c;
    c, used' := ReadFrom(r, p0, used);
    stops' := stops;
    eof := c == EOF;
    if eof {
      return;
    }
    if c == stops[|stops| - 1] {
      stops' := stops[..|stops| - 1];
    } else if c == QUOTE {
      eof, used' := SkipQuoted(r, p0, used');
    } else if c == LBRACE {
      stops' := stops + [RBRACE];
    } else if c == LBRACKET {
      stops' := stops + [RBRACKET];
    }
  }

  /**
   * The loop of `pass_object_inner`, after the opening bracket whose closer is `stop`:
   * reads to the matching closer, stepping over strings and counting the brackets of nested
   * containers (`stops` holds the closers still awaited, innermost last). False when the
   * input ends first.
   */
  method SkipToCloser(r: Reader, stop: Byte) returns (closed: bool)
    requires r.Valid()
    modifies r, r.buff
    ensures r.Valid() && r.buff == old(r.buff)
    ensures closed <==> SkipTo([stop], old(r.Pending())).Some?
    ensures closed ==> r.Pending() == old(r.Pending())[SkipTo([stop], old(r.Pending())).value..]
    ensures !closed ==> r.Pending() == []
  {
    ghost var p0 := r.Pending();
    ghost var used: nat := 0;
    var stops: seq<Byte> := [stop];
    while stops != []
      invariant Consumed(r, p0, used) && r.buff == old(r.buff)
      invariant SkipToAt(stops, p0, used) == SkipTo([stop], p0)
      decreases |p0| - used
    {
      var eof;
      eof, stops, used := SkipStep(r, stops, p0, used);
      if eof {
        return false;
      }
    }
    return true;
  }

  /** The three reads of `pass_null`, checked against "ull" (the source does not check them). */
  method ReadNull(r: Reader) returns (matched: bool)
    requires r.Valid()
    modifies r, r.buff
    ensures r.Valid() && r.buff == old(r.buff)
    ensures var p0 := old(r.Pending());
      matched <==> |p0| >= 3 && p0[0] == LOWER_U && p0[1] == LOWER_L && p0[2] == LOWER_L
    ensures r.Pending() == old(r.Pending())[Min3(|old(r.Pending())|)..]
  {
    ghost var p0 := r.Pending();
    ghost var used: nat := 0;
    var ull: seq<Byte> := [LOWER_U, LOWER_L, LOWER_L];
    matched := true;
    for i := 0 to 3
      invariant Consumed(r, p0, used) && r.buff == old(r.buff)
      invariant used == Min(i, |p0|)
      invariant matched <==> forall j :: 0 <= j < i ==> j < |p0| && p0[j] == ull[j]
    {
      var c;
      c, used := ReadFrom(r, p0, used);
      assert c == (if i < |p0| then p0[i] as Ch else EOF);
      if c != ull[i] {
        matched := false;
      }
    }
    assert Min3(|p0|) == Min(3, |p0|);
    if matched {
      assert 2 < |p0| && p0[2] == ull[2];
      assert p0[0] == ull[0] && p0[1] == ull[1];
    }
  }

  /**
   * A scanner: the reader, the path frames, and the key of the current object member, a
   * borrowed string that points into the reader's buffer once a key has been read.
   */
  class Scanner {
    const stream: Reader
    const stack: ObjStack
    const key: String

    ghost predicate Valid()
      reads stream, stack, key
    {
      stream.Valid() && stack.Valid() && key.Valid() && !key.onHeap
    }

    /**
     * The scanner did what the reference step `st` does: same kind, same frames, same bytes
     * left, and the key read when a member begins. Claimed whenever the key token fits in
     * the buffer (a longer key makes the reader refuse to refill).
     */
    ghost predicate Agrees(st: Step, t: JsonType)
      reads stream, stream.buff, stack, stack.idxs, key, key.a
      requires Valid()
    {
      st.keyLen < stream.buff.Length ==>
        && t == st.t && stack.Frames() == st.frames && stream.Pending() == st.rest
        && (st.key.Some? ==> key.Bytes() == st.key.value)
    }

    /** A scanner over `input` with a buffer of `capacity` bytes: no frame, and the key "0". */
    constructor (input: seq<Byte>, capacity: nat)
      requires 0 < capacity
      ensures Valid() && fresh(stream) && fresh(stack) && fresh(key)
      ensures stream.Pending() == input && stack.Frames() == [] && key.Bytes() == [ZERO]
    {
      stream := new Reader(input, capacity);
      stack := new ObjStack(16);
      var zero := new Byte[1](_ => ZERO);
      key := new String.Unsafe(zero, 0, 1);
    }

    /**
     * `set_next_key`: judges the byte `c` that follows a value. With an empty stack (the
     * source reads below it) only the end of input is regular.
     */
    method SetNextKey(c: Ch) returns (t: JsonType)
      requires Valid()
      modifies stream, stream.buff, stack, stack.idxs, key
      ensures Valid()
      ensures Agrees(NextKey(old(stack.Frames()), c, old(stream.Pending())), t)
      decreases stack.len, 1
    {
      if stack.len == 0 {
        t := if c == EOF then CheckEof(stack.len) else Malformed;
        return;
      }
      ghost var frames := stack.Frames();
      ghost var s := stream.Pending();
      if stack.InObject() {
        if c == COMMA {
          t := ReadKey();
        } else if c == RBRACE {
          t := Close(c);
        } else if c == EOF {
          t := CheckEof(stack.len);
        } else {
          t := Malformed;
        }
      } else {
        if c == COMMA {
          stack.IndexIncr();
          t := Array;
        } else if c == RBRACKET {
          t := Close(c);
        } else if c == EOF {
          t := CheckEof(stack.len);
        } else {
          t := Malformed;
        }
      }
    }

    /** The closing cases of `set_next_key`: pop the frame, skip whitespace, judge the next byte. */
    method Close(c: Ch) returns (t: JsonType)
      requires Valid() && 0 < stack.len
      requires c == (if stack.InObject() then RBRACE else RBRACKET)
      modifies stream, stream.buff, stack, stack.idxs, key
      ensures Valid()
      ensures Agrees(NextKey(old(stack.Frames()), c, old(stream.Pending())), t)
      decreases stack.len, 0
    {
      ghost var frames := stack.Frames();
      ghost var s := stream.Pending();
      var _ := stack.Pop();
      var d := EatWhile(IsSpace, stream, SPACE);
      NextKeyClose(frames, c, s);
      t := SetNextKey(d);
    }

    /**
     * The ',' case of `set_next_key` in an object: whitespace, the key string (kept in the
     * buffer and pointed at by `key`), whitespace read keeping the key, then ':'.
     */
    method ReadKey() returns (t: JsonType)
      requires Valid()
      modifies stream, stream.buff, key
      ensures Valid()
      ensures Agrees(JsonText.ReadKey(old(stack.Frames()), old(stream.Pending())), t)
    {
      var c := EatWhile(IsSpace, stream, SPACE);
      if c != QUOTE {
        return Malformed;
      }
      t := ReadKeyAfterQuote();
    }

    /** Reads the key once its opening quote, just before the cursor, has been read. */
    method ReadKeyAfterQuote() returns (t: JsonType)
      requires Valid() && 0 < stream.at && stream.buff[stream.at - 1] == QUOTE
      modifies stream, stream.buff, key
      ensures Valid()
      ensures Agrees(KeyAfterQuote(old(stack.Frames()), old(stream.Pending())), t)
    {
      var c := KeyToken(stream, key);
      if c != COLON {
        return Malformed;
      }
      return Object;
    }

    /**
     * `enter_object`, after the '{': a first key is read into a new object frame. An empty
     * object gets its frame too and closes it at once (the source judges its '}' against the
     * enclosing frame).
     */
    method EnterObject() returns (t: JsonType)
      requires Valid()
      modifies stream, stream.buff, stack, stack.idxs, key
      ensures Valid()
      ensures Agrees(JsonText.EnterObject(old(stack.Frames()), old(stream.Pending())), t)
    {
      ghost var frames := stack.Frames();
      ghost var st := JsonText.EnterObject(frames, stream.Pending());
      var c := EatWhile(IsSpace, stream, SPACE);
      ghost var rest := stream.Pending();
      if c == RBRACE {
        assert st == NextKey(frames + [OBJECT_FRAME], RBRACE, rest);
        t := PushObject(c);
        return;
      }
      if c != QUOTE {
        assert st == Fail(frames, rest);
        return Malformed;
      }
      assert st == NextKey(frames + [OBJECT_FRAME], COMMA, [QUOTE] + rest);
      var _ := stream.Rewind();
      assert stream.Pending() == [QUOTE] + rest;
      t := PushObject(COMMA);
    }

    /** Pushes an object frame and judges `c` against it. */
    method PushObject(c: Ch) returns (t: JsonType)
      requires Valid()
      modifies stream, stream.buff, stack, stack.idxs, key
      ensures Valid()
      ensures Agrees(NextKey(old(stack.Frames()) + [OBJECT_FRAME], c, old(stream.Pending())), t)
    {
      stack.Push(OBJECT_FRAME);
      t := SetNextKey(c);
    }

    /** `enter_array`, after the '[': a new array frame at index 0. */
    method EnterArray() returns (t: JsonType)
      requires Valid()
      modifies stack, stack.idxs
      ensures Valid() && t == Array
      ensures stack.Frames() == old(stack.Frames()) + [0]
    {
      stack.Push(0);
      return Array;
    }

    /** `pass_string`, after the opening quote. */
    method PassString() returns (t: JsonType)
      requires Valid()
      modifies stream, stream.buff, stack, stack.idxs, key
      ensures Valid()
      ensures Agrees(JsonText.PassString(old(stack.Frames()), old(stream.Pending())), t)
    {
      t := EatJString(stream);
      if t == Malformed {
        return;
      }
      var c := EatWhile(IsSpace, stream, SPACE);
      t := SetNextKey(c);
    }

    /** `pass_number`, after the first byte of the number. */
    method PassNumber() returns (t: JsonType)
      requires Valid()
      modifies stream, stream.buff, stack, stack.idxs, key
      ensures Valid()
      ensures Agrees(JsonText.PassNumber(old(stack.Frames()), old(stream.Pending())), t)
    {
      var c := EatWhile(InNum, stream, ZERO);
      c := EatWhile(IsSpace, stream, c);
      t := SetNextKey(c);
    }

    /** `pass_object_inner`: skips to the closer `stop` of the container just entered. */
    method PassObjectInner(stop: Byte) returns (t: JsonType)
      requires Valid()
      modifies stream, stream.buff, stack, stack.idxs, key
      ensures Valid()
      ensures Agrees(PassContainer(stop, old(stack.Frames()), old(stream.Pending())), t)
    {
      var closed := SkipToCloser(stream, stop);
      if !closed {
        return Malformed;
      }
      var c := EatWhile(IsSpace, stream, SPACE);
      t := SetNextKey(c);
    }

    method PassObject() returns (t: JsonType)
      requires Valid()
      modifies stream, stream.buff, stack, stack.idxs, key
      ensures Valid()
      ensures Agrees(PassContainer(RBRACE, old(stack.Frames()), old(stream.Pending())), t)
    {
      t := PassObjectInner(RBRACE);
    }

    method PassArray() returns (t: JsonType)
      requires Valid()
      modifies stream, stream.buff, stack, stack.idxs, key
      ensures Valid()
      ensures Agrees(PassContainer(RBRACKET, old(stack.Frames()), old(stream.Pending())), t)
    {
      t := PassObjectInner(RBRACKET);
    }

    /** `pass_null`, after the 'n'. */
    method PassNull() returns (t: JsonType)
      requires Valid()
      modifies stream, stream.buff, stack, stack.idxs, key
      ensures Valid()
      ensures Agrees(JsonText.PassNull(old(stack.Frames()), old(stream.Pending())), t)
    {
      ghost var frames := stack.Frames();
      ghost var p0 := stream.Pending();
      var matched := ReadNull(stream);
      if !matched {
        assert JsonText.PassNull(frames, p0) == Fail(frames, stream.Pending());
        return Malformed;
      }
      assert JsonText.PassNull(frames, p0) == AfterValue(frames, stream.Pending());
      var c := EatWhile(IsSpace, stream, SPACE);
      t := SetNextKey(c);
    }

    /** `pass_next`: skips whitespace and the value that starts there, then reads what follows it. */
    method PassNext() returns (t: JsonType)
      requires Valid()
      modifies stream, stream.buff, stack, stack.idxs, key
      ensures Valid()
      ensures Agrees(JsonText.PassNext(old(stack.Frames()), old(stream.Pending())), t)
    {
      var c := EatWhile(IsSpace, stream, SPACE);
      if c == EOF {
        return CheckEof(stack.len);
      }
      if c == LBRACE {
        t := PassObject();
      } else if c == LBRACKET {
        t := PassArray();
      } else if c == QUOTE {
        t := PassString();
      } else if c == LOWER_N {
        t := PassNull();
      } else if GetType(c) == Code(Number) {
        t := PassNumber();
      } else {
        t := Malformed;
      }
    }

    /** `tell_index`: the index of the innermost frame, the position within the current array. */
    function TellIndex(): (i: int)
      reads stream, stack, stack.idxs, key
      requires Valid() && 0 < stack.len
      ensures i == stack.Frames()[|stack.Frames()| - 1]
    {
      stack.Last()
    }
  }
}
