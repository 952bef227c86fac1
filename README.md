# seekjson in Dafny

seekjson is a streaming JSON scanner written in C. It reads a document through a buffered
reader, and it never builds a tree. It keeps two things: a stack of path frames and the key
of the current object member. With these it can skip values (`pass_next`) or step into them
(`enter_object`, `enter_array`), and it can tell at every step which key or array index it
has reached.

This project models the scanner's core and proves properties of the model. Each file is one
module:

- `bytes.dfy` (`Bytes`): bytes and single-byte reads.
  - A byte is an integer 0..255. A read yields a byte or `EOF` (-1).
  - The C code reads `char`, which is signed on common targets and then indexes tables with
    it. Here bytes are never negative, so that defect cannot occur.
- `bufferedreader.dfy` (`BufferedReader`): the retained-window reader `br_*`.
  - The reader is a class with the buffer, the cursor `at`, the fill length `fill` and the
    `end` flag, plus the stream bytes not yet read into the buffer.
  - The C code uses one field, `buffsize`, for both the capacity and the fill length. Here
    the capacity is `buff.Length` and the fill length is `fill`.
  - `Pending()` is every byte the reader will still deliver. Each operation is specified
    against it and against the bytes kept in the window.
- `strings.dfy` (`Strings`): the owned-or-borrowed `String`.
  - A class over an array, an offset, a length and `onHeap`.
  - `Bytes()` is the byte sequence the string denotes.
- `objstack.dfy` (`ObjStacks`): the doubling stack of path frames.
  - A frame of -1 is an object frame. Any other value is the current index of an array.
- `jsontext.dfy` (`JsonText`): the pure reference semantics of the scanner.
  - It holds the character classes, `eat_while` as a function on byte sequences, and where a
    string literal ends.
  - It gives every scanning step as a function from the frames and the pending bytes to a
    `Step`: the kind reported, the frames afterwards, the key read, and the bytes left.
- `scanjson.dfy` (`ScanJson`): the scanner itself.
  - Its reading loops run over the buffered reader.
  - The class `Scanner` holds the reader, the stack and the key. Each of its steps is proved
    to agree with the reference step in `JsonText`.
- `seekjson.dfy` (`SeekJson`): the earlier draft of the scanner.
  - It has its stack of `{key, idx}` records, its growable token buffer, `get_type`,
    `check_eof`, the string skip and the number skip.
  - The draft reads with `fgetc`. Its stream is the sequence of bytes not yet read.

The model departs from the source in a few places:

- **The stream.** The file behind the reader is a byte sequence. A read of `n` bytes takes
  the first `n` bytes of what is left, or all of them when fewer remain.
- **A refill that brings nothing.** `br_fill` can keep bytes but bring none from the stream.
  It then returns a non-zero count, and `br_getc_keep` reads at `buff[at]` with
  `at == buffsize`, past the valid bytes (seekjson/bufferedreader.c:29-33, 88-94). The model
  reports EOF in that case.
- **An empty stack.** After its last frame is popped, `set_next_key` reads the top of an
  empty stack (seekjson/scanjson.c:212, 224-226). The model judges the byte against no frame
  at all: only EOF gives `json_eof`, and anything else is malformed.
- **Nested containers.** `pass_object_inner` skips a nested container by calling
  `pass_object` or `pass_array` recursively. Each of those then runs `set_next_key` against
  the outer frames when it finishes (seekjson/scanjson.c:303-308). The model skips with a
  stack of awaited closers instead, which is what the recursion was meant to achieve.
- **Corrected defects.** The `## Findings` table lists these. In each case the model uses the
  corrected form, and the code as written is modelled beside it.

## Model

| member | source | states |
|---|---|---|
| `BufferedReader.Reader.constructor` | seekjson/bufferedreader.c:44-55 | A new reader has filled its buffer from the input. The cursor is 0, and the reader will deliver exactly the input. |
| `BufferedReader.Reader.Fill` | seekjson/bufferedreader.c:18-42 | A retention as long as the capacity returns 0 and changes nothing. Otherwise the buffer starts with the kept bytes, followed by the next bytes of the stream in order, and the cursor stands after the kept bytes. A short read sets `end` and makes the fill length kept + read. The result is always kept + read. |
| `BufferedReader.Reader.GetcKeep` | seekjson/bufferedreader.c:81-95 | Inside the window it returns `buff[at]`, advances the cursor by one, and changes nothing else. At the end of the window it returns EOF with no change when `end` is set or the retention is refused. A refill starts the buffer with the kept bytes, and `filled` says whether one happened. EOF is returned exactly when nothing is pending. |
| `BufferedReader.Reader.Take` | seekjson/bufferedreader.c:94 | `buff[at++]`: the byte at the cursor, which is the first pending byte. |
| `BufferedReader.Reader.Getc` | seekjson/bufferedreader.c:97-102 | Returns the next pending byte, or EOF when none is left. After a read, the `len` bytes that were before the cursor are still just before the byte read. |
| `BufferedReader.Reader.Rewind` | seekjson/bufferedreader.c:104-110 | With the cursor at 0 it returns 1 and changes nothing. Otherwise the cursor moves back one byte, which is pending again, and it returns 0. |
| `BufferedReader.Reader.Strptr` | seekjson/bufferedreader.c:112-117 | None exactly when `length > at`. Otherwise the `length` bytes that end at the cursor. |
| `BufferedReader.ReadAll` | seekjson/bufferedreader.h:22-24 | Reading byte by byte, with any retention below the capacity, delivers exactly the pending bytes in order and then EOF. |
| `BufferedReader.RereadAfterRewind` | seekjson/bufferedreader.h:30-32 | A rewind after a successful read makes the next read return the same byte again. |
| `Strings.String.New` | seekjson/strings.c:12-22 | Makes an owned string whose length is `length` and whose bytes are a fresh copy of the source bytes. |
| `Strings.String.Unsafe` | seekjson/strings.c:24-32 | Makes a borrowed string that aliases the given bytes with the given length. |
| `Strings.String.MakeSafe` | seekjson/strings.c:34-44 | Leaves an owned string as it is. A borrowed string becomes owned through a fresh copy, with the same length and bytes. |
| `Strings.String.Update` | seekjson/strings.c:67-81 | A borrowed string is only re-pointed at the new bytes. An owned string gets the new length and a copy of the bytes, and a new array only when it grows. |
| `Strings.String.ToCString` | seekjson/strings.c:60-65 | Writes the bytes to `dest[..len]` and a zero at `dest[len]`, and leaves the rest of `dest` alone. |
| `Strings.StrLen` | seekjson/strings.c:57 | `strlen`: the position of the first zero byte. |
| `Strings.CStringToString` | seekjson/strings.c:55-58 | Makes an owned string of length `strlen - 1` that holds that prefix. For the empty C string it returns null. |
| `Strings.StringsAreEqual` | seekjson/strings.c:84-94 | True exactly when the lengths match and every byte matches. |
| `ObjStacks.ObjStack.constructor` | seekjson/scanjson.c:140-147 | An empty stack with the given capacity. |
| `ObjStacks.ObjStack.Grow` | seekjson/scanjson.c:157-165 | Doubles the capacity and keeps the frames. |
| `ObjStacks.ObjStack.Push` | seekjson/scanjson.c:167-172 | Appends the frame and keeps the lower frames. The array is doubled exactly when it is full. |
| `ObjStacks.ObjStack.Pop` | seekjson/scanjson.c:174-177 | Drops the top frame. The result says whether that frame was non-zero. |
| `ObjStacks.ObjStack.Replace` | seekjson/scanjson.c:179-182 | Changes only the top frame. |
| `ObjStacks.ObjStack.IndexIncr` | seekjson/scanjson.c:188-191 | Adds one to the top frame and changes nothing else. |
| `ObjStacks.ObjStack.Last` | seekjson/scanjson.c:149 | The top frame. |
| `JsonText.GetType` | seekjson/scanjson.c:37-49 | Digits and `-` give `json_number`, and EOF gives `json_eof`. Any other byte gives its own code. So the result is object, array, string or null exactly for `{ [ " n`, and malformed exactly for the byte 0. |
| `JsonText.InNumClasses` | seekjson/scanjson.c:54-57 | `in_num` is false exactly for EOF, whitespace, `,`, `}` and `]`. Every byte a number is written with continues a number. |
| `JsonText.CheckEof` | seekjson/scanjson.c:193-198 | `json_eof` exactly when the stack is empty, otherwise `json_malformed`. |
| `JsonText.Eaten` | seekjson/scanjson.c:79-84 | `eat_while` on a byte sequence. The result fails the condition and is the current byte when that already fails it. Otherwise the read consumed input, and EOF leaves nothing. |
| `JsonText.EatenConsumes` | seekjson/scanjson.c:79-84 | Every byte `eat_while` consumes before the one it stops at satisfies the condition. |
| `JsonText.EatenSuffix` | seekjson/scanjson.c:79-84 | What `eat_while` leaves is the suffix of its input that follows the byte it stopped at. |
| `JsonText.StringEndAt` | seekjson/scanjson.c:102-112 | Where a string literal ends: past the first quote that no backslash escapes, where a backslash escapes exactly the next byte. None when the input ends first. |
| `JsonText.StringEndAtQuote` | seekjson/scanjson.c:105 | A string literal always ends with a quote. |
| `JsonText.StringEndNeedsQuote` | seekjson/scanjson.c:105-107 | Input without a quote byte never ends the string. |
| `JsonText.EscapedQuoteSkipped` | seekjson/scanjson.c:108-109 | `\"` is stepped over as a pair and does not end the string. |
| `JsonText.StringEndPrefix` | seekjson/scanjson.c:102-112 | Bytes after a string's end do not change where it ends. |
| `JsonText.StringEndShift` | seekjson/scanjson.c:102-112 | Bytes before a string only shift where it ends. |
| `JsonText.ReadKey` | seekjson/scanjson.c:214-222 | After `,` in an object, either a key follows or the result is malformed, and the frames are unchanged. A key is present exactly when `json_object` is reported, and the key token starts with a quote. |
| `JsonText.KeyAfterQuote` | seekjson/scanjson.c:218-222 | The same, for the key once its opening quote has been read. |
| `JsonText.NextKeyShape` | seekjson/scanjson.c:207-248 | `set_next_key` only pops frames. Then it reports an object frame with a key, or an array frame whose index went up by one, or no frame with `json_eof`, or malformed. |
| `JsonText.ShapedAfterPop` | seekjson/scanjson.c:224-226 | Popping a frame keeps whatever shape the step on the enclosing frames has. |
| `JsonText.NextKeyClose` | seekjson/scanjson.c:223-226 | A matching closer pops the top frame. The next non-space byte is then judged against the frames below. |
| `JsonText.ClosersMatch` | seekjson/scanjson.c:223-245 | `}` against an array frame and `]` against an object frame are malformed. |
| `JsonText.SkipToAt` | seekjson/scanjson.c:295-315 | The position the container skip reaches. It lies past the starting point, within the input, and past at least one byte while closers are still awaited. |
| `JsonText.SkipToCloses` | seekjson/scanjson.c:298 | A container skip ends right after the closer of the outermost container. |
| `JsonText.PassNullChecks` | seekjson/scanjson.c:327-332 | A null passes only when the three bytes after `n` are `ull`. |
| `JsonText.PassNullAgrees` | seekjson/scanjson.c:327-332 | On `null` the checked skip does what the source does. |
| `JsonText.EnterObjectReadsKey` | seekjson/scanjson.c:259-263 | When the first non-space byte is `"`, `enter_object` either pushes an object frame and reads a key, or the result is malformed. |
| `JsonText.PassNextShape` | seekjson/scanjson.c:347-362 | Every value skip only pops frames and then names the next member or element. |
| `JsonText.AfterValueShape` | seekjson/scanjson.c:280-281 | Judging the byte after a value has the same shape. |
| `ScanJson.ReadKept` | seekjson/scanjson.c:118 | One read with a retention: the next pending byte. The bytes before the cursor grow by that byte. |
| `ScanJson.EatWhile` | seekjson/scanjson.c:79-84 | The reader loop ends where `JsonText.Eaten` ends: the same byte, and the same bytes left. |
| `ScanJson.KeepWhile` | seekjson/scanjson.c:86-91 | The same as `eat_while`. The count grows by one per read. |
| `ScanJson.EatJString` | seekjson/scanjson.c:102-112 | `json_string` exactly when the literal ends, leaving the bytes after its closing quote. `json_malformed` when the input ends first, having consumed it all. |
| `ScanJson.KeepJString` | seekjson/scanjson.c:114-125 | For `n` content bytes it returns `n + 2`, and the bytes after the closing quote are left pending. With `keep` 0, as `build_jstring` calls it, the whole token, both quotes included, then ends at the cursor. |
| `ScanJson.GetcForString` | seekjson/scanjson.c:68-77 | Reads the next byte while the key's bytes and length stay the same. The key either still points where it did, or, after a refill, at the moved copy at the front of the buffer. |
| `ScanJson.BuildWhile` | seekjson/scanjson.c:94-99 | `eat_while` that keeps the key across reads: the same result as `JsonText.Eaten`, with the key unchanged. |
| `ScanJson.BuildJString` | seekjson/scanjson.c:127-131 | Points the key at the string literal just read, both quotes included. The bytes after it are left pending. |
| `ScanJson.UpdateFromReader` | seekjson/scanjson.c:130 | Points the key at the `len` bytes before the cursor. |
| `ScanJson.KeyToken` | seekjson/scanjson.c:218-219 | The key becomes the quoted literal. The byte after the following whitespace is what `JsonText.KeyAfterQuote` reads next. |
| `ScanJson.SkipQuoted` | seekjson/scanjson.c:300-302 | A string inside a skipped container is read through its closing quote. It fails exactly when the literal does not end. |
| `ScanJson.SkipStep` | seekjson/scanjson.c:298-311 | One byte of the container skip leaves the skip's end where `JsonText.SkipToAt` puts it. |
| `ScanJson.SkipToCloser` | seekjson/scanjson.c:295-312 | Returns true exactly when the container closes, leaving the bytes after its closer. Otherwise it consumes the whole input. |
| `ScanJson.ReadNull` | seekjson/scanjson.c:329-330 | Reads three bytes, or fewer at the end of input, and matches exactly when they are `ull`. |
| `ScanJson.Scanner.constructor` | seekjson/scanjson.c:404-411 | A scanner over the input with no frames and the key `"0"`. |
| `ScanJson.Scanner.SetNextKey` | seekjson/scanjson.c:207-248 | Agrees with `JsonText.NextKey`: the kind, the frames, the bytes left, and the key read. |
| `ScanJson.Scanner.Close` | seekjson/scanjson.c:223-226 | The closing cases of `set_next_key` agree with `JsonText.NextKey`. |
| `ScanJson.Scanner.ReadKey` | seekjson/scanjson.c:214-222 | Agrees with `JsonText.ReadKey`, and the key holds the quoted key token. |
| `ScanJson.Scanner.ReadKeyAfterQuote` | seekjson/scanjson.c:218-222 | Agrees with `JsonText.KeyAfterQuote`. |
| `ScanJson.Scanner.EnterObject` | seekjson/scanjson.c:254-264 | Agrees with the corrected `JsonText.EnterObject`. |
| `ScanJson.Scanner.PushObject` | seekjson/scanjson.c:262-263 | Pushes an object frame and judges the byte against it. |
| `ScanJson.Scanner.EnterArray` | seekjson/scanjson.c:266-270 | Pushes index 0 and reports `json_array`. |
| `ScanJson.Scanner.PassString` | seekjson/scanjson.c:274-282 | Agrees with `JsonText.PassString`. |
| `ScanJson.Scanner.PassNumber` | seekjson/scanjson.c:284-290 | Agrees with `JsonText.PassNumber`. |
| `ScanJson.Scanner.PassObjectInner` | seekjson/scanjson.c:295-315 | Agrees with `JsonText.PassContainer`: it skips to the matching closer, then judges what follows. |
| `ScanJson.Scanner.PassObject` | seekjson/scanjson.c:317-320 | The same, for `}`. |
| `ScanJson.Scanner.PassArray` | seekjson/scanjson.c:322-325 | The same, for `]`. |
| `ScanJson.Scanner.PassNull` | seekjson/scanjson.c:327-332 | Agrees with the checked `JsonText.PassNull`. |
| `ScanJson.Scanner.PassNext` | seekjson/scanjson.c:347-362 | Agrees with `JsonText.PassNext`. EOF gives `check_eof`. `{ [ " n` and numbers are skipped, and everything else is malformed. |
| `ScanJson.Scanner.TellIndex` | seekjson/scanjson.c:334-337 | The top frame. |
| `SeekJson.KeyStack.constructor` | seekjson/seekjson.c:40-49 | An empty stack with the given capacity. |
| `SeekJson.KeyStack.Grow` | seekjson/seekjson.c:57-65 | Doubles the capacity and keeps the entries. |
| `SeekJson.KeyStack.Push` | seekjson/seekjson.c:67-72 | Appends the key, which becomes the top. The array is doubled exactly when it is full. |
| `SeekJson.KeyStack.Pop` | seekjson/seekjson.c:74-77 | Returns the former top and removes it. |
| `SeekJson.KeyStack.Replace` | seekjson/seekjson.c:79-82 | Changes only the top entry. |
| `SeekJson.KeyStack.GetTop` | seekjson/seekjson.c:84-87 | The top entry, read without change. |
| `SeekJson.GetType` | seekjson/seekjson.c:138-156 | A total classification. Digits and `-` give number, `"` string, `[` array, `{` object, and EOF eof. Everything else gives malformed, both ways. |
| `SeekJson.GetTypeAgrees` | seekjson/seekjson.c:138-156 | Every byte the draft accepts is classified alike by the scanner's `get_type`. |
| `SeekJson.CheckEof` | seekjson/seekjson.c:196-201 | `json_eof` exactly when the stack is empty. |
| `SeekJson.DigitsFrom` | seekjson/seekjson.c:260 | The longest run of digits from a position. |
| `SeekJson.NumberEndBytes` | seekjson/seekjson.c:257-268 | A number is made of digits, `.`, `e`, `E` and signs only, and a digit never follows it. |
| `SeekJson.NumberEndInNum` | seekjson/seekjson.c:257-268 | Every byte of a draft number continues a number for the scanner's `in_num` too. |
| `SeekJson.Draft.constructor` | seekjson/seekjson.c:89-94 | The draft scanner's fields: the input, an empty stack and a token buffer of the given size. |
| `SeekJson.Draft.GrowBuffer` | seekjson/seekjson.c:112-121 | Doubles the token buffer and keeps its bytes. |
| `SeekJson.Draft.AddCharToBuffer` | seekjson/seekjson.c:123-127 | Doubles the buffer exactly when `idx` equals its size, then stores the byte at `idx`. The bytes before `idx` are kept. |
| `SeekJson.Draft.AddStringToBuffer` | seekjson/seekjson.c:166-180 | Writes the opening quote, the content with escapes kept verbatim, and the closing quote from `start`, and returns the index past them. Returns 0 when the input ends first. The bytes before `start` are kept. |
| `SeekJson.Draft.AddStringStep` | seekjson/seekjson.c:171-177 | One byte of the string, or a backslash and the byte it escapes, is appended to the token. |
| `SeekJson.Draft.ScanString` | seekjson/seekjson.c:245-255 | Skips through the first unescaped quote. It fails exactly when the input ends first, and a backslash skips exactly one byte. |
| `SeekJson.Draft.SkipDigits` | seekjson/seekjson.c:260 | Reads past the run of digits, and delivers the first byte after it. |
| `SeekJson.Draft.ScanFraction` | seekjson/seekjson.c:260-262 | Reads digits, then optionally `.` and digits. |
| `SeekJson.Draft.ScanExponent` | seekjson/seekjson.c:263-268 | After `e` or `E`, reads an optional sign, then digits. |
| `SeekJson.Draft.ScanNumber` | seekjson/seekjson.c:257-270 | The delimiter it hands on is the byte right after the number's grammar (`SeekJson.NumberEnd`), and the bytes after that are left unread. |
| `SeekJson.Draft.ScanArray` | seekjson/seekjson.c:280-285 | Pushes an array frame `{NULL, 0}` and reports `json_array`. |
| `SeekJson.ScanNumberAsWritten` | seekjson/seekjson.c:263-268 | `scan_number` as written. The delimiter is never a digit, and no input is read twice. |
| `SeekJson.ScanNumberSignTest` | seekjson/seekjson.c:265 | After `1`, the input `e5,2` makes the as-written scan run past the `,` to EOF. The corrected scan stops at the `,` and leaves `2`. |
| `JsonText.PassNullAcceptsAnyBytes` | seekjson/scanjson.c:329-330 | As written, `n000` passes as a whole document. Checked, it is malformed. |
| `JsonText.EnterObjectEmptyInArray` | seekjson/scanjson.c:257-258 | In the array frame `[0]`, the empty object of `[{}, 1]` is malformed as written. Corrected, it moves the array to index 1. |
| `JsonText.PassNextSkipsSpace` | seekjson/scanjson.c:349 | `pass_next` skips the whitespace in front of a value: a leading space changes nothing. |
| `JsonText.DigitStartsNumber` | seekjson/scanjson.c:355-357 | A digit in front of a value makes `pass_next` hand over to `pass_number`. |
| `JsonText.NumberEndsAtFollower` | seekjson/scanjson.c:284-290 | `pass_number` stops at a `,`, `}` or `]` and judges it against the frames. |
| `JsonText.DigitThenFollower` | seekjson/scanjson.c:284-290 | After a one-digit number, `pass_number` judges the byte right after it (`,`, `}` or `]`) against the frames. |
| `JsonText.NullThenFollower` | seekjson/scanjson.c:327-332 | After `null`, `pass_null` judges the byte right after it against the frames. |
| `JsonText.ArrayCommaStep` | seekjson/scanjson.c:235-237 | A `,` in array frame `i` moves the array on to index `i + 1`. |
| `JsonText.NestedArrayThenClose` | seekjson/scanjson.c:295-315 | A nested array `[3]` is passed whole, and the outer `]` after it ends the document. |
| `JsonText.OneByteKey` | seekjson/scanjson.c:218-222 | A one-byte key literal followed by `:` becomes the key, quotes included. |
| `JsonText.FirstKeyStep` | seekjson/scanjson.c:254-264 | `enter_object` reads the first key of an object and leaves the bytes after its `:`. |
| `JsonText.SpacedKey` | seekjson/scanjson.c:214-222 | After a `,` in an object, whitespace and a one-byte key give that key. |
| `JsonText.NumberThenKeyStep` | seekjson/scanjson.c:284-290 | In an object, passing a number and its `,` reads the next key. |
| `JsonText.NumberThenCloseStep` | seekjson/scanjson.c:223-228 | In the outermost object, a number followed by the last `}` ends the document. |
| `JsonText.ObjectMembersScenario` | seekjson/scanjson.c:420-432 | For `{"a": 1, "b": 2}`, the driver reports the key "a", then the key "b", then the end of the document. |
| `JsonText.TruncatedObjectScenario` | seekjson/scanjson.c:420-434 | For `{"a": ` cut short, the driver reports the key "a", then a malformed document, not its end. |
| `JsonText.ArrayIndicesScenario` | seekjson/scanjson.c:266-270 | For `[1, 2, [3]]` after `enter_array`, the steps report indices 1 and 2, then the end of the document. The nested array is passed, not entered. |
| `JsonText.NullsScenario` | seekjson/scanjson.c:327-332 | For `[null, null]` after `enter_array`, the steps report index 1, then the end of the document. |

## Left out

- Allocation and stream handling:
  - `br_new`'s allocation, `br_open`, `br_close`, `br_eof` and `br_error`, and the `FILE*`
    functions, because the stream is a byte sequence.
  - `free_string`, `os_new`/`os_free`, `ks_free` and `free_scanner`, because freeing
    memory has no counterpart here.
  - `memoryerror` and the `debug` printing, because they abort or print. An allocation
    here always succeeds.
- `read_next` (seekjson/scanjson.c:365-401), because it is unfinished and its own comment
  says it does not work.
- The `main` functions, because they only print. The steps of scanjson.c's `main` on small documents are stated by the `JsonText` scenario lemmas.
- In the draft:
  - `set_next_key`, which dereferences a null key.
  - `in_object`, `eatwhitespace` and `copy_string`, which only feed it.
  - `scan_object` and `scan_next`, which hand their work on to it.
  - `free_scanner`.
  - The draft's `new_scanner` (seekjson/seekjson.c:96-103), because it has no return statement and so hands its caller no scanner. `SeekJson.Draft.constructor` sets up the fields it allocates.
  - The draft's `strings_are_equal` is the same code as the one in `strings.c` and is modelled once, as `Strings.StringsAreEqual`.
- Sizes are unbounded. The `size_t`/`ssize_t` counters of the source cannot overflow here.
- The `charclasses` and `passfuncs` tables are written as comparisons on the byte.
- `ScanJson.Scanner.PassObjectInner`: the nested `pass_object` / `pass_array` calls of the source are not modelled as written. Each runs `set_next_key` against the outer frames and can change them midway. The model skips with a stack of awaited closers instead.
- `ScanJson.Scanner.SetNextKey`: agreement with the reference step is claimed only when the key token read is shorter than the reader's buffer. For a longer key the reader refuses the refill, so the read returns EOF. `keep_jstring` then ends the token early, and the truncated key is kept. The same limit applies to the members below.
- `ScanJson.Scanner.Close`: the same limit on the key's length.
- `ScanJson.Scanner.ReadKey`: the same limit on the key's length.
- `ScanJson.Scanner.ReadKeyAfterQuote`: the same limit on the key's length.
- `ScanJson.Scanner.EnterObject`: the same limit on the key's length.
- `ScanJson.Scanner.PushObject`: the same limit on the key's length.
- `ScanJson.Scanner.PassString`: the same limit on the key's length.
- `ScanJson.Scanner.PassNumber`: the same limit on the key's length.
- `ScanJson.Scanner.PassObjectInner`: the same limit on the key's length.
- `ScanJson.Scanner.PassObject`: the same limit on the key's length.
- `ScanJson.Scanner.PassArray`: the same limit on the key's length.
- `ScanJson.Scanner.PassNull`: the same limit on the key's length.
- `ScanJson.Scanner.PassNext`: the same limit on the key's length.
- `ScanJson.KeyToken`: its result is stated only when the literal, or the whole input for an unterminated one, fits in the buffer.
- `ScanJson.BuildJString`: its result is stated only when the literal fits in the buffer.
  - For an unterminated literal, `keep_jstring` returns one less than the bytes read after the quote (seekjson/scanjson.c:119-120), and the key is pointed at that many bytes before the cursor: for `"ab` at the end of the input, at `ab`. The model does the same, but its contract states only that the input is consumed.
- `ScanJson.KeepJString`: the length it returns for an unterminated literal is not stated.
  - The window claim is stated for `keep` 0 only, which is the value `build_jstring` passes.
  - With a larger `keep`, the read after a backslash keeps only the token (seekjson/scanjson.c:122), so a refill there would drop the `keep` bytes before it.
- `ScanJson.KeepWhile`: the bytes kept in the window are not stated, only the count and the bytes consumed.
- `ScanJson.GetcForString`: modelled for a borrowed key only. The scanner's key is always borrowed, and an owned key would copy the bytes instead.
- `ScanJson.BuildWhile`: modelled for a borrowed key only, like `GetcForString`.
- `BufferedReader.Reader.Getc`: a retention longer than the window makes the source point before the buffer. The model refuses that refill instead.
- `Strings.CStringToString`: for the empty C string, the source asks for `SIZE_MAX` bytes and aborts. The model returns null.
- `SeekJson.Draft.ScanString`: it reports whether the string closed instead of going on to the draft's `set_next_key`, which is left out.
- `SeekJson.Draft.ScanNumber`: it returns the delimiter instead of passing it to the draft's `set_next_key`.
- `SeekJson.Draft.AddStringToBuffer`: what the buffer holds after an unterminated string is not stated. A trailing backslash stores EOF there as the byte 0xFF.

## Findings

| source | as written | input that shows it | evidently intended | confidence | as-written member | corrected member |
|---|---|---|---|---|---|---|
| seekjson/scanjson.c:257-258 | `enter_object` on `}` judges the closer against the enclosing frame, without having pushed an object frame | frames `[0]` and, after the `{`, the bytes `}, 1]` (the document `[{}, 1]`): malformed | the empty object is opened and closed, and the `,` after it moves the array to index 1 | high (not executed) | `JsonText.EnterObjectEmptyInArray` | `ScanJson.Scanner.EnterObject` |
| seekjson/scanjson.c:329-330 | `pass_null` reads three bytes whatever they are | the document `n000`: reported as a complete document (`json_eof`) | only `null` is accepted | high (not executed) | `JsonText.PassNullAcceptsAnyBytes` | `ScanJson.Scanner.PassNull` |
| seekjson/seekjson.c:265 | `c == '+' \|\| '-'` is always true, so the byte after `e` is always dropped, and the digit loop reads again before testing | after `1`, the bytes `e5,2`: delimiter EOF, with the `,` consumed | an optional sign, then the exponent digits, then the delimiter | high (not executed) | `SeekJson.ScanNumberSignTest` | `SeekJson.Draft.ScanNumber` |
