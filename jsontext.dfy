/**
 * The pure half of the structural scanner: character classes, the value kinds, and a
 * reference semantics of every scanning step as a function of the path frames and the
 * bytes still to be read. The imperative scanner is proved against these functions.
 */
module JsonText {
  import opened Bytes
  import opened ObjStacks

  datatype JsonType = Malformed | Object | Array | String | Number | Null | Eof

  /** The value of each kind in the source's enum: most kinds are numbered by their leading byte. */
  function Code(t: JsonType): int {
    match t
    case Malformed => 0
    case Object => LBRACE
    case Array => LBRACKET
    case String => QUOTE
    case Number => ZERO
    case Null => LOWER_N
    case Eof => 256
  }

  /** Classifies a first byte: digits and '-' are numbers, EOF is the end, other bytes stand for themselves. */
  function GetType(c: Ch): (r: int)
    ensures r == Code(Number) <==> IsDigit(c) || c == MINUS
    ensures r == Code(Eof) <==> c == EOF
    ensures r == Code(Malformed) <==> c == 0
    ensures r == Code(Object) <==> c == LBRACE
    ensures r == Code(Array) <==> c == LBRACKET
    ensures r == Code(String) <==> c == QUOTE
    ensures r == Code(Null) <==> c == LOWER_N
    ensures !(IsDigit(c) || c == MINUS || c == EOF) ==> r == c
    ensures 0 <= r <= 256
  {
    if IsDigit(c) then Code(Number)
    else if c == MINUS then Code(Number)
    else if c == EOF then Code(Eof)
    else c
  }

  /** The bytes the character-class table marks as followers of a value. */
  predicate IsFollower(b: Byte) {
    b == COMMA || b == RBRACE || b == RBRACKET
  }

  /** Whether `c` may continue a number literal. */
  predicate InNum(c: Ch) {
    c != EOF && !IsSpace(c) && !IsFollower(c)
  }

  /** Every byte a JSON number is written with continues a number; every delimiter ends one. */
  lemma InNumClasses(c: Ch)
    ensures IsDigit(c) || c == MINUS || c == PLUS || c == DOT || c == LOWER_E || c == UPPER_E ==> InNum(c)
    ensures !InNum(c) <==> c == EOF || IsSpace(c) || c == COMMA || c == RBRACE || c == RBRACKET
  {
  }

  /** The end of input is regular only when no container is open. */
  function CheckEof(depth: nat): (t: JsonType)
    ensures t == Eof <==> depth == 0
    ensures t == Eof || t == Malformed
  {
    if depth == 0 then Eof else Malformed
  }

  /**
   * `eat_while`: while `cond` holds of `c`, read the next byte. Yields the first byte that
   * fails `cond` and what follows it.
   */
  function Eaten(cond: Ch -> bool, c: Ch, s: seq<Byte>): (r: Read)
    requires !cond(EOF)
    ensures !cond(r.c)
    ensures |r.rest| <= |s|
    ensures !cond(c) ==> r == Read(c, s)
    ensures cond(c) && r.c == EOF ==> r.rest == []
    ensures cond(c) && r.c != EOF ==> |r.rest| < |s|
    decreases |s|, if cond(c) then 1 else 0
  {
    if !cond(c) then Read(c, s)
    else
      var g := Get(s);
      Eaten(cond, g.c, g.rest)
  }

  /** What `eat_while` leaves is a suffix of its input, right after the byte it stopped at. */
  lemma {:induction false} EatenSuffix(cond: Ch -> bool, c: Ch, s: seq<Byte>)
    requires !cond(EOF)
    ensures var r := Eaten(cond, c, s);
      && r.rest == s[|s| - |r.rest|..]
      && (cond(c) && r.c != EOF ==> s[|s| - |r.rest| - 1] == r.c)
    decreases |s|, if cond(c) then 1 else 0
  {
    if cond(c) {
      var g := Get(s);
      EatenSuffix(cond, g.c, g.rest);
      if s != [] {
        assert s[1..][|s| - 1 - |Eaten(cond, c, s).rest|..] == s[|s| - |Eaten(cond, c, s).rest|..];
      }
    }
  }

  /** Every byte `eat_while` consumes, except the one it stops at, satisfies the condition. */
  lemma {:induction false} EatenConsumes(cond: Ch -> bool, c: Ch, s: seq<Byte>)
    requires !cond(EOF) && cond(c)
    ensures var r := Eaten(cond, c, s);
      var used := |s| - |r.rest| - (if r.c == EOF then 0 else 1);
      forall i :: 0 <= i < used ==> cond(s[i])
    decreases |s|
  {
    if s != [] && cond(s[0]) {
      EatenConsumes(cond, s[0], s[1..]);
    }
  }

  /**
   * Where a string literal whose bytes start at `s[i]` (after the opening quote) ends: the
   * position just past the first quote not escaped by a backslash (a backslash escapes
   * exactly the next byte). None when the input ends first.
   */
  function StringEndAt(s: seq<Byte>, i: nat): (r: Option<nat>)
    requires i <= |s|
    ensures r.Some? ==> i < r.value <= |s|
    decreases |s| - i
  {
    if i == |s| then None
    else if s[i] == QUOTE then Some(i + 1)
    else if s[i] == BACKSLASH then
      if i + 1 == |s| then None else StringEndAt(s, i + 2)
    else StringEndAt(s, i + 1)
  }

  /** The length of the string literal at the front of `s`, closing quote included. */
  function StringEnd(s: seq<Byte>): Option<nat> {
    StringEndAt(s, 0)
  }

  /** The string ends at a quote. */
  lemma {:induction false} StringEndAtQuote(s: seq<Byte>, i: nat)
    requires i <= |s| && StringEndAt(s, i).Some?
    ensures s[StringEndAt(s, i).value - 1] == QUOTE
    decreases |s| - i
  {
    if s[i] == BACKSLASH {
      StringEndAtQuote(s, i + 2);
    } else if s[i] != QUOTE {
      StringEndAtQuote(s, i + 1);
    }
  }

  /** Two inputs that agree up to the end of a string agree on where it ends. */
  lemma {:induction false} StringEndAtAgree(s: seq<Byte>, u: seq<Byte>, i: nat)
    requires i <= |s| && StringEndAt(s, i).Some?
    requires StringEndAt(s, i).value <= |u| && s[..StringEndAt(s, i).value] == u[..StringEndAt(s, i).value]
    ensures StringEndAt(u, i) == StringEndAt(s, i)
    decreases |s| - i
  {
    var n := StringEndAt(s, i).value;
    assert s[i] == s[..n][i] == u[..n][i] == u[i];
    if s[i] == BACKSLASH {
      assert s[i + 1] == s[..n][i + 1] == u[..n][i + 1] == u[i + 1];
      StringEndAtAgree(s, u, i + 2);
    } else if s[i] != QUOTE {
      StringEndAtAgree(s, u, i + 1);
    }
  }

  /** The end of a string depends only on the bytes up to it: bytes after it change nothing. */
  lemma StringEndPrefix(s: seq<Byte>, t: seq<Byte>)
    requires StringEnd(s).Some?
    ensures StringEnd(s[..StringEnd(s).value] + t) == StringEnd(s)
  {
    var n := StringEnd(s).value;
    var u := s[..n] + t;
    assert u[..n] == s[..n];
    StringEndAtAgree(s, u, 0);
  }

  /** A string without any quote byte never ends. */
  lemma {:induction false} StringEndNeedsQuote(s: seq<Byte>, i: nat)
    requires i <= |s|
    requires forall j :: i <= j < |s| ==> s[j] != QUOTE
    ensures StringEndAt(s, i) == None
    decreases |s| - i
  {
    if i < |s| {
      if s[i] == BACKSLASH && i + 1 < |s| {
        StringEndNeedsQuote(s, i + 2);
      } else if s[i] != BACKSLASH {
        StringEndNeedsQuote(s, i + 1);
      }
    }
  }

  /** Bytes before the string shift where it ends and change nothing else. */
  lemma {:induction false} StringEndShift(p: seq<Byte>, t: seq<Byte>, i: nat)
    requires i <= |t|
    ensures StringEndAt(p + t, |p| + i) ==
      match StringEndAt(t, i) case None => None case Some(n) => Some(n + |p|)
    decreases |t| - i
  {
    var u := p + t;
    if i < |t| {
      assert u[|p| + i] == t[i];
      if t[i] == BACKSLASH && i + 1 < |t| {
        StringEndShift(p, t, i + 2);
      } else if t[i] != BACKSLASH && t[i] != QUOTE {
        StringEndShift(p, t, i + 1);
      }
    }
  }

  /** An escaped quote does not end the string: `\"` is skipped as a pair. */
  lemma EscapedQuoteSkipped(t: seq<Byte>)
    ensures StringEnd([BACKSLASH, QUOTE] + t) ==
      match StringEnd(t) case None => None case Some(n) => Some(n + 2)
  {
    StringEndShift([BACKSLASH, QUOTE], t, 0);
  }

  /**
   * The outcome of one scanning step: the kind reported, the path frames afterwards, the key
   * read (when an object member begins), how long the key's token was, and the bytes left.
   */
  datatype Step = Step(t: JsonType, frames: seq<int>, key: Option<seq<Byte>>, keyLen: nat, rest: seq<Byte>)

  function Fail(frames: seq<int>, s: seq<Byte>): Step {
    Step(Malformed, frames, None, 0, s)
  }

  /**
   * `set_next_key`: judges the byte `c` that follows a value against the top frame.
   * An empty stack (the source reads below it) is judged like the end of the document.
   */
  function NextKey(frames: seq<int>, c: Ch, s: seq<Byte>): (st: Step)
    decreases |frames|
  {
    if frames == [] then
      Step(if c == EOF then CheckEof(0) else Malformed, frames, None, 0, s)
    else
      var top := frames[|frames| - 1];
      var below := frames[..|frames| - 1];
      if top == OBJECT_FRAME then
        if c == COMMA then ReadKey(frames, s)
        else if c == RBRACE then
          var w := Eaten(IsSpace, SPACE, s);
          NextKey(below, w.c, w.rest)
        else if c == EOF then Step(CheckEof(|frames|), frames, None, 0, s)
        else Fail(frames, s)
      else
        if c == COMMA then Step(Array, below + [top + 1], None, 0, s)
        else if c == RBRACKET then
          var w := Eaten(IsSpace, SPACE, s);
          NextKey(below, w.c, w.rest)
        else if c == EOF then Step(CheckEof(|frames|), frames, None, 0, s)
        else Fail(frames, s)
  }

  /** After a ',' in an object: optional whitespace, a string key, optional whitespace, ':'. */
  function ReadKey(frames: seq<int>, s: seq<Byte>): (st: Step)
    ensures st.t == Object || st.t == Malformed
    ensures st.frames == frames
    ensures st.t == Object <==> st.key.Some?
    ensures st.key.Some? ==> |st.key.value| == st.keyLen >= 2 && st.key.value[0] == QUOTE
  {
    var w := Eaten(IsSpace, SPACE, s);
    if w.c != QUOTE then Fail(frames, w.rest) else KeyAfterQuote(frames, w.rest)
  }

  /** The key after its opening quote: the rest of the string literal, whitespace, ':'. */
  function KeyAfterQuote(frames: seq<int>, s: seq<Byte>): (st: Step)
    ensures st.t == Object || st.t == Malformed
    ensures st.frames == frames
    ensures st.t == Object <==> st.key.Some?
    ensures st.key.Some? ==> |st.key.value| == st.keyLen >= 2 && st.key.value[0] == QUOTE
  {
    match StringEnd(s)
    case None => Step(Malformed, frames, None, 1 + |s|, [])
    case Some(n) =>
      var token := [QUOTE] + s[..n];
      var v := Eaten(IsSpace, SPACE, s[n..]);
      if v.c != COLON then Step(Malformed, frames, None, |token|, v.rest)
      else Step(Object, frames, Some(token), |token|, v.rest)
  }

  /**
   * What a step may do to the frames: only pop them and then, for a new member or element,
   * leave the surviving top as an object frame (with a key) or an array frame whose index
   * went up by one. The end of the document leaves no frame.
   */
  ghost predicate Shaped(frames: seq<int>, st: Step) {
    && |st.frames| <= |frames|
    && (st.t == Eof ==> st.frames == [])
    && (st.t == Object ==> 0 < |st.frames| && st.frames == frames[..|st.frames|]
                           && st.frames[|st.frames| - 1] == OBJECT_FRAME && st.key.Some?)
    && (st.t == Array ==> 0 < |st.frames|
                          && st.frames[..|st.frames| - 1] == frames[..|st.frames| - 1]
                          && frames[|st.frames| - 1] != OBJECT_FRAME
                          && st.frames[|st.frames| - 1] == frames[|st.frames| - 1] + 1)
    && (st.t == Object || st.t == Array || st.t == Eof || st.t == Malformed)
  }

  /** Popping a frame keeps the shape of whatever the enclosing frames do. */
  lemma ShapedAfterPop(frames: seq<int>, st: Step)
    requires frames != [] && Shaped(frames[..|frames| - 1], st)
    ensures Shaped(frames, st)
  {
    var below := frames[..|frames| - 1];
    assert below[..|st.frames|] == frames[..|st.frames|];
    if |st.frames| > 0 {
      assert below[..|st.frames| - 1] == frames[..|st.frames| - 1];
    }
  }

  lemma {:induction false} NextKeyShape(frames: seq<int>, c: Ch, s: seq<Byte>)
    ensures Shaped(frames, NextKey(frames, c, s))
    decreases |frames|
  {
    if frames != [] {
      var top := frames[|frames| - 1];
      var below := frames[..|frames| - 1];
      if (top == OBJECT_FRAME && c == RBRACE) || (top != OBJECT_FRAME && c == RBRACKET) {
        var w := Eaten(IsSpace, SPACE, s);
        NextKeyShape(below, w.c, w.rest);
        assert NextKey(frames, c, s) == NextKey(below, w.c, w.rest);
        ShapedAfterPop(frames, NextKey(below, w.c, w.rest));
      } else if c == COMMA && top != OBJECT_FRAME {
        assert NextKey(frames, c, s).frames == below + [top + 1];
      } else if c == COMMA {
        assert NextKey(frames, c, s) == ReadKey(frames, s);
      }
    }
  }

  /** A matching closer pops the top frame and hands the next non-space byte to the frames below. */
  lemma NextKeyClose(frames: seq<int>, c: Ch, s: seq<Byte>)
    requires frames != []
    requires c == (if frames[|frames| - 1] == OBJECT_FRAME then RBRACE else RBRACKET)
    ensures var w := Eaten(IsSpace, SPACE, s);
      NextKey(frames, c, s) == NextKey(frames[..|frames| - 1], w.c, w.rest)
  {
  }

  /** '}' closes only an object frame and ']' only an array frame. */
  lemma ClosersMatch(frames: seq<int>, s: seq<Byte>)
    requires frames != []
    ensures frames[|frames| - 1] != OBJECT_FRAME ==> NextKey(frames, RBRACE, s).t == Malformed
    ensures frames[|frames| - 1] == OBJECT_FRAME ==> NextKey(frames, RBRACKET, s).t == Malformed
  {
  }

  // Skipping one value: each pass function consumes the value and judges its follower.

  function AfterValue(frames: seq<int>, s: seq<Byte>): Step {
    var w := Eaten(IsSpace, SPACE, s);
    NextKey(frames, w.c, w.rest)
  }

  /** `pass_string`, after the opening quote. */
  function PassString(frames: seq<int>, s: seq<Byte>): Step {
    match StringEnd(s)
    case None => Fail(frames, [])
    case Some(n) => AfterValue(frames, s[n..])
  }

  /** `pass_number`, after the first byte of the number. */
  function PassNumber(frames: seq<int>, s: seq<Byte>): Step {
    var a := Eaten(InNum, ZERO, s);
    var b := Eaten(IsSpace, a.c, a.rest);
    NextKey(frames, b.c, b.rest)
  }

  /**
   * Skipping from `s[i]` until the containers whose closers are `stops` (innermost last) are
   * closed, stepping over strings and nested containers: the position just past the last
   * closer, or None when the input ends first. Closers of other containers are ignored.
   */
  function SkipToAt(stops: seq<Byte>, s: seq<Byte>, i: nat): (r: Option<nat>)
    requires i <= |s|
    ensures r.Some? ==> i <= r.value <= |s|
    ensures r.Some? && stops != [] ==> i < r.value
    decreases |s| - i, |stops|
  {
    if stops == [] then Some(i)
    else if i == |s| then None
    else
      var c := s[i];
      var stop := stops[|stops| - 1];
      if c == stop then
        if |stops| == 1 then Some(i + 1) else SkipToAt(stops[..|stops| - 1], s, i + 1)
      else if c == QUOTE then
        match StringEndAt(s, i + 1)
        case None => None
        case Some(j) => SkipToAt(stops, s, j)
      else if c == LBRACE then SkipToAt(stops + [RBRACE], s, i + 1)
      else if c == LBRACKET then SkipToAt(stops + [RBRACKET], s, i + 1)
      else SkipToAt(stops, s, i + 1)
  }

  /** How many bytes it takes to close the containers whose closers are `stops`. */
  function SkipTo(stops: seq<Byte>, s: seq<Byte>): Option<nat> {
    SkipToAt(stops, s, 0)
  }

  /** A skip that closes containers ends with the outermost closer. */
  lemma {:induction false} SkipToCloses(stops: seq<Byte>, s: seq<Byte>, i: nat)
    requires i <= |s| && stops != [] && SkipToAt(stops, s, i).Some?
    ensures s[SkipToAt(stops, s, i).value - 1] == stops[0]
    decreases |s| - i, |stops|
  {
    var c := s[i];
    var stop := stops[|stops| - 1];
    if c == stop {
      if |stops| > 1 {
        SkipToCloses(stops[..|stops| - 1], s, i + 1);
      }
    } else if c == QUOTE {
      SkipToCloses(stops, s, StringEndAt(s, i + 1).value);
    } else if c == LBRACE {
      SkipToCloses(stops + [RBRACE], s, i + 1);
    } else if c == LBRACKET {
      SkipToCloses(stops + [RBRACKET], s, i + 1);
    } else {
      SkipToCloses(stops, s, i + 1);
    }
  }

  /** `pass_object` / `pass_array`, after the opening bracket whose closer is `stop`. */
  function PassContainer(stop: Byte, frames: seq<int>, s: seq<Byte>): Step {
    match SkipTo([stop], s)
    case None => Fail(frames, [])
    case Some(n) => AfterValue(frames, s[n..])
  }

  /** `pass_null` as written: it reads three bytes whatever they are. */
  function PassNullAsWritten(frames: seq<int>, s: seq<Byte>): Step {
    AfterValue(frames, s[Min3(|s|)..])
  }

  function Min3(n: nat): nat { if n < 3 then n else 3 }

  /** `pass_null`, after the 'n': reads three bytes, which must be "ull". */
  function PassNull(frames: seq<int>, s: seq<Byte>): Step {
    if |s| >= 3 && s[0] == LOWER_U && s[1] == LOWER_L && s[2] == LOWER_L then AfterValue(frames, s[3..])
    else Fail(frames, s[Min3(|s|)..])
  }

  /** Only "null" passes: any other three bytes, or fewer, are malformed. */
  lemma PassNullChecks(frames: seq<int>, s: seq<Byte>)
    ensures PassNull(frames, s).t != Malformed ==> |s| >= 3 && s[..3] == [LOWER_U, LOWER_L, LOWER_L]
  {
  }

  /** On a well-formed literal the checked `pass_null` agrees with the source's. */
  lemma PassNullAgrees(frames: seq<int>, s: seq<Byte>)
    requires |s| >= 3 && s[..3] == [LOWER_U, LOWER_L, LOWER_L]
    ensures PassNull(frames, s) == PassNullAsWritten(frames, s)
  {
    assert s[0] == LOWER_U && s[1] == LOWER_L && s[2] == LOWER_L;
    assert Min3(|s|) == 3;
  }

  /** As written, "n000" passes for a whole document; checked, it is malformed. */
  lemma PassNullAcceptsAnyBytes()
    ensures PassNullAsWritten([], [ZERO, ZERO, ZERO]).t == Eof
    ensures PassNull([], [ZERO, ZERO, ZERO]).t == Malformed
  {
    assert Eaten(IsSpace, SPACE, []) == Read(EOF, []);
  }

  /** `enter_object` as written: an empty object hands its '}' to the enclosing frame. */
  function EnterObjectAsWritten(frames: seq<int>, s: seq<Byte>): Step {
    var w := Eaten(IsSpace, SPACE, s);
    if w.c == RBRACE then NextKey(frames, RBRACE, w.rest)
    else if w.c != QUOTE then Fail(frames, w.rest)
    else NextKey(frames + [OBJECT_FRAME], COMMA, [QUOTE] + w.rest)
  }

  /** `enter_object`, after the '{': an empty object is opened and closed at once. */
  function EnterObject(frames: seq<int>, s: seq<Byte>): Step {
    var w := Eaten(IsSpace, SPACE, s);
    if w.c == RBRACE then NextKey(frames + [OBJECT_FRAME], RBRACE, w.rest)
    else if w.c != QUOTE then Fail(frames, w.rest)
    else NextKey(frames + [OBJECT_FRAME], COMMA, [QUOTE] + w.rest)
  }

  /**
   * Inside an array, the empty object of "[{}, 1]" is misjudged as written: its '}' meets
   * the array frame. Opened and closed at once, the ',' after it moves the array on.
   */
  lemma EnterObjectEmptyInArray()
    ensures var s := [RBRACE, COMMA, SPACE, ZERO + 1, RBRACKET];
      && EnterObjectAsWritten([0], s).t == Malformed
      && EnterObject([0], s) == Step(Array, [1], None, 0, [SPACE, ZERO + 1, RBRACKET])
  {
    var s := [RBRACE, COMMA, SPACE, ZERO + 1, RBRACKET];
    assert Eaten(IsSpace, SPACE, s) == Read(RBRACE, s[1..]);
    assert Eaten(IsSpace, SPACE, s[1..]) == Read(COMMA, s[2..]);
    assert [0, OBJECT_FRAME][..1] == [0];
    assert EnterObject([0], s) == NextKey([0, OBJECT_FRAME], RBRACE, s[1..]);
    assert NextKey([0, OBJECT_FRAME], RBRACE, s[1..]) == NextKey([0], COMMA, s[2..]);
    assert s[2..] == [SPACE, ZERO + 1, RBRACKET];
  }

  /** Entering an object whose first byte is '"' pushes an object frame and reads the first key. */
  lemma EnterObjectReadsKey(frames: seq<int>, s: seq<Byte>)
    requires Eaten(IsSpace, SPACE, s).c == QUOTE
    ensures var st := EnterObject(frames, s);
      st.t == Malformed || (st.t == Object && st.frames == frames + [OBJECT_FRAME] && st.key.Some?)
  {
  }

  /** `pass_next`: skips whitespace and skips the value that starts there. */
  function PassNext(frames: seq<int>, s: seq<Byte>): (st: Step)
  {
    var w := Eaten(IsSpace, SPACE, s);
    if w.c == EOF then Step(CheckEof(|frames|), frames, None, 0, [])
    else if w.c == LBRACE then PassContainer(RBRACE, frames, w.rest)
    else if w.c == LBRACKET then PassContainer(RBRACKET, frames, w.rest)
    else if w.c == QUOTE then PassString(frames, w.rest)
    else if w.c == LOWER_N then PassNull(frames, w.rest)
    else if GetType(w.c) == Code(Number) then PassNumber(frames, w.rest)
    else Fail(frames, w.rest)
  }

  /** Every step `pass_next` takes only pops frames, then names the next member or element. */
  lemma PassNextShape(frames: seq<int>, s: seq<Byte>)
    ensures Shaped(frames, PassNext(frames, s))
  {
    var w := Eaten(IsSpace, SPACE, s);
    var r := w.rest;
    if w.c == EOF {
    } else if w.c == LBRACE || w.c == LBRACKET {
      var stop: Byte := if w.c == LBRACE then RBRACE else RBRACKET;
      match SkipTo([stop], r) {
        case None =>
        case Some(n) => AfterValueShape(frames, r[n..]);
      }
    } else if w.c == QUOTE {
      match StringEnd(r) {
        case None =>
        case Some(n) => AfterValueShape(frames, r[n..]);
      }
    } else if w.c == LOWER_N {
      if |r| >= 3 && r[0] == LOWER_U && r[1] == LOWER_L && r[2] == LOWER_L {
        AfterValueShape(frames, r[3..]);
      }
    } else if GetType(w.c) == Code(Number) {
      var a := Eaten(InNum, ZERO, r);
      var b := Eaten(IsSpace, a.c, a.rest);
      NextKeyShape(frames, b.c, b.rest);
    }
  }

  lemma AfterValueShape(frames: seq<int>, s: seq<Byte>)
    ensures Shaped(frames, AfterValue(frames, s))
  {
    var w := Eaten(IsSpace, SPACE, s);
    NextKeyShape(frames, w.c, w.rest);
  }

  // Scanning scenarios: the steps the scanner's driver takes on small documents, after the
  // opening '{' or '[' has been read.

  /** Whitespace skipping stops at the first byte that is not whitespace. */
  lemma SpaceThen(c: Byte, rest: seq<Byte>)
    requires !IsSpace(c)
    ensures Eaten(IsSpace, SPACE, [c] + rest) == Read(c, rest)
  {
    assert Get([c] + rest) == Read(c, rest);
  }

  /** A one-byte key literal, then a ':': the key is the literal, quotes included. */
  lemma OneByteKey(frames: seq<int>, a: Byte, rest: seq<Byte>)
    requires a != QUOTE && a != BACKSLASH
    ensures KeyAfterQuote(frames, [a, QUOTE, COLON] + rest)
         == Step(Object, frames, Some([QUOTE, a, QUOTE]), 3, rest)
  {
    var u := [a, QUOTE, COLON] + rest;
    assert StringEndAt(u, 1) == Some(2);
    assert StringEnd(u) == Some(2);
    assert [QUOTE] + u[..2] == [QUOTE, a, QUOTE];
    assert u[2..] == [COLON] + rest;
    SpaceThen(COLON, rest);
  }

  /** Entering an object whose first member has a one-byte key: the key is read, with the bytes after the ':' left. */
  lemma FirstKeyStep(a: Byte, rest: seq<Byte>)
    requires a != QUOTE && a != BACKSLASH
    ensures EnterObject([], [QUOTE, a, QUOTE, COLON] + rest)
         == Step(Object, [OBJECT_FRAME], Some([QUOTE, a, QUOTE]), 3, rest)
  {
    var u := [a, QUOTE, COLON] + rest;
    assert [QUOTE, a, QUOTE, COLON] + rest == [QUOTE] + u;
    SpaceThen(QUOTE, u);
    assert [] + [OBJECT_FRAME] == [OBJECT_FRAME];
    SpaceThen(QUOTE, u);
    assert ReadKey([OBJECT_FRAME], [QUOTE] + u) == KeyAfterQuote([OBJECT_FRAME], u);
    OneByteKey([OBJECT_FRAME], a, rest);
  }

  /** `pass_next` skips the whitespace in front of a value. */
  lemma PassNextSkipsSpace(frames: seq<int>, x: seq<Byte>)
    ensures PassNext(frames, [SPACE] + x) == PassNext(frames, x)
  {
    assert Get([SPACE] + x) == Read(SPACE, x);
  }

  /** A digit starts a number, which `pass_number` skips. */
  lemma DigitStartsNumber(frames: seq<int>, m: Byte, v: seq<Byte>)
    requires IsDigit(m)
    ensures PassNext(frames, [m] + v) == PassNumber(frames, v)
  {
    SpaceThen(m, v);
  }

  /** A number ends at a follower, which is judged against the frames. */
  lemma NumberEndsAtFollower(frames: seq<int>, f: Byte, k: seq<Byte>)
    requires IsFollower(f)
    ensures PassNumber(frames, [f] + k) == NextKey(frames, f, k)
  {
    assert Get([f] + k) == Read(f, k);
    assert Eaten(InNum, ZERO, [f] + k) == Read(f, k);
  }

  /** Passing a one-digit number: the byte right after it is judged as its follower. */
  lemma DigitThenFollower(frames: seq<int>, m: Byte, f: Byte, k: seq<Byte>)
    requires IsDigit(m) && IsFollower(f)
    ensures PassNext(frames, [m, f] + k) == NextKey(frames, f, k)
  {
    assert [m, f] + k == [m] + ([f] + k);
    DigitStartsNumber(frames, m, [f] + k);
    NumberEndsAtFollower(frames, f, k);
  }

  /** Passing a `null`: the byte right after it is judged as its follower. */
  lemma NullThenFollower(frames: seq<int>, f: Byte, k: seq<Byte>)
    requires IsFollower(f)
    ensures PassNext(frames, [LOWER_N, LOWER_U, LOWER_L, LOWER_L, f] + k) == NextKey(frames, f, k)
  {
    var v := [LOWER_U, LOWER_L, LOWER_L, f] + k;
    assert [LOWER_N, LOWER_U, LOWER_L, LOWER_L, f] + k == [LOWER_N] + v;
    SpaceThen(LOWER_N, v);
    assert PassNext(frames, [LOWER_N] + v) == PassNull(frames, v);
    assert v[3..] == [f] + k;
    SpaceThen(f, k);
  }

  /** A ',' in array frame `i` moves the array on to element `i + 1`. */
  lemma ArrayCommaStep(i: nat, k: seq<Byte>)
    ensures NextKey([i], COMMA, k) == Step(Array, [i + 1], None, 0, k)
  {
    assert [i][..0] + [i + 1] == [i + 1];
  }

  /** A nested one-digit array skipped whole, then the outer array's ']' ends the document. */
  lemma NestedArrayThenClose(i: nat, p: Byte)
    requires IsDigit(p)
    ensures PassNext([i], [LBRACKET, p, RBRACKET, RBRACKET]) == Step(Eof, [], None, 0, [])
  {
    var r := [p, RBRACKET, RBRACKET];
    assert [LBRACKET, p, RBRACKET, RBRACKET] == [LBRACKET] + r;
    SpaceThen(LBRACKET, r);
    assert PassNext([i], [LBRACKET] + r) == PassContainer(RBRACKET, [i], r);
    assert SkipToAt([RBRACKET], r, 1) == Some(2);
    assert SkipToAt([RBRACKET], r, 0) == SkipToAt([RBRACKET], r, 1);
    assert r[2..] == [RBRACKET] + [];
    SpaceThen(RBRACKET, []);
    assert AfterValue([i], r[2..]) == NextKey([i], RBRACKET, []);
    assert [i][..0] == [];
    assert Eaten(IsSpace, SPACE, []) == Read(EOF, []);
  }

  /** A ',' in an object, then a space and a one-byte key. */
  lemma SpacedKey(b: Byte, rest: seq<Byte>)
    requires b != QUOTE && b != BACKSLASH
    ensures ReadKey([OBJECT_FRAME], [SPACE, QUOTE, b, QUOTE, COLON] + rest)
         == Step(Object, [OBJECT_FRAME], Some([QUOTE, b, QUOTE]), 3, rest)
  {
    var u := [b, QUOTE, COLON] + rest;
    assert [SPACE, QUOTE, b, QUOTE, COLON] + rest == [SPACE] + ([QUOTE] + u);
    assert Get([SPACE] + ([QUOTE] + u)) == Read(SPACE, [QUOTE] + u);
    SpaceThen(QUOTE, u);
    OneByteKey([OBJECT_FRAME], b, rest);
  }

  /** Passing a one-digit number in an object: the ',' after it leads to the next one-byte key. */
  lemma NumberThenKeyStep(m: Byte, b: Byte, rest: seq<Byte>)
    requires IsDigit(m) && b != QUOTE && b != BACKSLASH
    ensures PassNext([OBJECT_FRAME], [SPACE, m, COMMA, SPACE, QUOTE, b, QUOTE, COLON] + rest)
         == Step(Object, [OBJECT_FRAME], Some([QUOTE, b, QUOTE]), 3, rest)
  {
    var k := [SPACE, QUOTE, b, QUOTE, COLON] + rest;
    assert [SPACE, m, COMMA, SPACE, QUOTE, b, QUOTE, COLON] + rest == [SPACE] + ([m, COMMA] + k);
    PassNextSkipsSpace([OBJECT_FRAME], [m, COMMA] + k);
    DigitThenFollower([OBJECT_FRAME], m, COMMA, k);
    SpacedKey(b, rest);
  }

  /** Passing a one-digit number that the document's last '}' follows: the end of the document. */
  lemma NumberThenCloseStep(n: Byte)
    requires IsDigit(n)
    ensures PassNext([OBJECT_FRAME], [SPACE, n, RBRACE]) == Step(Eof, [], None, 0, [])
  {
    assert [SPACE, n, RBRACE] == [SPACE] + ([n, RBRACE] + []);
    PassNextSkipsSpace([OBJECT_FRAME], [n, RBRACE] + []);
    DigitThenFollower([OBJECT_FRAME], n, RBRACE, []);
    assert Eaten(IsSpace, SPACE, []) == Read(EOF, []);
  }

  // Scanning scenarios: the steps the scanner's driver takes on small documents, after the
  // opening '{' or '[' has been read.

  /**
   * `{"a": 1, "b": 2}`, for any one-byte keys and one-digit values: the key "a", then the
   * key "b", then the end of the document.
   */
  lemma ObjectMembersScenario(a: Byte, b: Byte, m: Byte, n: Byte)
    requires a != QUOTE && a != BACKSLASH && b != QUOTE && b != BACKSLASH && IsDigit(m) && IsDigit(n)
    ensures var last := [SPACE, n, RBRACE];
      var second := [SPACE, m, COMMA, SPACE, QUOTE, b, QUOTE, COLON] + last;
      && EnterObject([], [QUOTE, a, QUOTE, COLON] + second) == Step(Object, [OBJECT_FRAME], Some([QUOTE, a, QUOTE]), 3, second)
      && PassNext([OBJECT_FRAME], second) == Step(Object, [OBJECT_FRAME], Some([QUOTE, b, QUOTE]), 3, last)
      && PassNext([OBJECT_FRAME], last) == Step(Eof, [], None, 0, [])
  {
    var last := [SPACE, n, RBRACE];
    FirstKeyStep(a, [SPACE, m, COMMA, SPACE, QUOTE, b, QUOTE, COLON] + last);
    NumberThenKeyStep(m, b, last);
    NumberThenCloseStep(n);
  }

  /**
   * A document cut short after a key, `{"a": `: the key "a", then, at the end of the input,
   * a malformed document rather than its end, because the object is still open.
   */
  lemma TruncatedObjectScenario(a: Byte)
    requires a != QUOTE && a != BACKSLASH
    ensures && EnterObject([], [QUOTE, a, QUOTE, COLON, SPACE]) == Step(Object, [OBJECT_FRAME], Some([QUOTE, a, QUOTE]), 3, [SPACE])
            && PassNext([OBJECT_FRAME], [SPACE]) == Step(Malformed, [OBJECT_FRAME], None, 0, [])
  {
    assert [QUOTE, a, QUOTE, COLON, SPACE] == [QUOTE, a, QUOTE, COLON] + [SPACE];
    FirstKeyStep(a, [SPACE]);
    assert [SPACE] == [SPACE] + [];
    PassNextSkipsSpace([OBJECT_FRAME], []);
    assert Eaten(IsSpace, SPACE, []) == Read(EOF, []);
  }

  /**
   * `[1, 2, [3]]`, for any one-digit numbers, after `enter_array` has pushed index 0: the
   * indices 1 and 2, then the end of the document. The nested array is passed whole, not
   * entered.
   */
  lemma ArrayIndicesScenario(m: Byte, n: Byte, p: Byte)
    requires IsDigit(m) && IsDigit(n) && IsDigit(p)
    ensures var last := [SPACE, LBRACKET, p, RBRACKET, RBRACKET];
      var second := [SPACE, n, COMMA] + last;
      && PassNext([0], [m, COMMA] + second) == Step(Array, [1], None, 0, second)
      && PassNext([1], second) == Step(Array, [2], None, 0, last)
      && PassNext([2], last) == Step(Eof, [], None, 0, [])
  {
    var last := [SPACE, LBRACKET, p, RBRACKET, RBRACKET];
    var second := [SPACE, n, COMMA] + last;
    DigitThenFollower([0], m, COMMA, second);
    ArrayCommaStep(0, second);
    assert second == [SPACE] + ([n, COMMA] + last);
    PassNextSkipsSpace([1], [n, COMMA] + last);
    DigitThenFollower([1], n, COMMA, last);
    ArrayCommaStep(1, last);
    assert last == [SPACE] + [LBRACKET, p, RBRACKET, RBRACKET];
    PassNextSkipsSpace([2], [LBRACKET, p, RBRACKET, RBRACKET]);
    NestedArrayThenClose(2, p);
  }

  /** `[null, null]`, after `enter_array` has pushed index 0: index 1, then the end of the document. */
  lemma NullsScenario()
    ensures var last := [SPACE, LOWER_N, LOWER_U, LOWER_L, LOWER_L, RBRACKET];
      && PassNext([0], [LOWER_N, LOWER_U, LOWER_L, LOWER_L, COMMA] + last) == Step(Array, [1], None, 0, last)
      && PassNext([1], last) == Step(Eof, [], None, 0, [])
  {
    var last := [SPACE, LOWER_N, LOWER_U, LOWER_L, LOWER_L, RBRACKET];
    NullThenFollower([0], COMMA, last);
    ArrayCommaStep(0, last);
    assert last == [SPACE] + ([LOWER_N, LOWER_U, LOWER_L, LOWER_L, RBRACKET] + []);
    PassNextSkipsSpace([1], [LOWER_N, LOWER_U, LOWER_L, LOWER_L, RBRACKET] + []);
    NullThenFollower([1], RBRACKET, []);
    assert Eaten(IsSpace, SPACE, []) == Read(EOF, []);
  }
}
