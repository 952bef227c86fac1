/** Byte-level vocabulary shared by the reader, the strings and both scanners. */
module Bytes {

  /** One byte of the input, read as unsigned. */
  type Byte = b: int | 0 <= b < 256

  /** What a single-character read yields: a byte, or EOF. */
  type Ch = c: int | -1 <= c < 256

  const EOF: Ch := -1

  const QUOTE: Byte := 34 // '"'
  const BACKSLASH: Byte := 92 // '\\'
  const COMMA: Byte := 44 // ','
  const COLON: Byte := 58 // ':'
  const LBRACE: Byte := 123 // '{'
  const RBRACE: Byte := 125 // '}'
  const LBRACKET: Byte := 91 // '['
  const RBRACKET: Byte := 93 // ']'
  const SPACE: Byte := 32 // ' '
  const MINUS: Byte := 45 // '-'
  const PLUS: Byte := 43 // '+'
  const DOT: Byte := 46 // '.'
  const ZERO: Byte := 48 // '0'
  const LOWER_E: Byte := 101 // 'e'
  const UPPER_E: Byte := 69 // 'E'
  const LOWER_N: Byte := 110 // 'n'
  const LOWER_U: Byte := 117 // 'u'
  const LOWER_L: Byte := 108 // 'l'

  datatype Option<+T> = None | Some(value: T)

  /** `isspace` in the C locale: space, tab, newline, vertical tab, form feed, carriage return. */
  predicate IsSpace(c: Ch) {
    c == SPACE || 9 <= c <= 13
  }

  /** `isdigit`: the ten ASCII digits. */
  predicate IsDigit(c: Ch) {
    ZERO <= c <= ZERO + 9
  }

  /** The byte a C `char` holds after storing the `int` result of a read (EOF becomes 0xFF). */
  function ToByte(c: Ch): (b: Byte)
    ensures c != EOF ==> b == c
    ensures c == EOF ==> b == 255
  {
    c % 256
  }

  /** One read from a byte sequence: the next byte and what is left, or EOF and nothing consumed. */
  datatype Read = Read(c: Ch, rest: seq<Byte>)

  function Get(s: seq<Byte>): (r: Read)
    ensures s == [] ==> r == Read(EOF, [])
    ensures s != [] ==> r.c != EOF && s == [r.c as Byte] + r.rest
  {
    if s == [] then Read(EOF, []) else Read(s[0], s[1..])
  }
}
