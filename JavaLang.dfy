/** Java primitives and library behaviour that the model relies on: the
    `byte`, `short` and `int` types as bit patterns with their two's-complement
    readings, `null`-or-value results as an Option, and `String.isBlank`. */
module JavaLang {

  /** A Java `byte` as the 8 bits it stores; `Signed8` gives the value Java sees. */
  type Byte = bv8

  /** A Java `int` as the 32 bits it stores. */
  type JInt = bv32

  /** A Java `short` as the 16 bits it stores; `Signed16` gives the value Java sees. */
  type Short = bv16

  datatype Option<T> = None | Some(value: T)

  /** The value Java gives a `byte`: two's complement over 8 bits. */
  function Signed8(b: Byte): (v: int)
    ensures -0x80 <= v < 0x80
    ensures v % 0x100 == b as int
  {
    if b < 0x80 then b as int else b as int - 0x100
  }

  /** The value Java gives a `short`: two's complement over 16 bits. */
  function Signed16(b: Short): (v: int)
    ensures -0x8000 <= v < 0x8000
  {
    if b < 0x8000 then b as int else b as int - 0x1_0000
  }

  /** Widening a `byte` to an `int` (binary numeric promotion) copies its sign bit
      into the 24 new high bits. */
  function Widen(b: Byte): (x: JInt)
    ensures (x & 0xFF) as Byte == b
    ensures x >> 7 == if b < 0x80 then 0 else 0x1FF_FFFF
  {
    if b < 0x80 then b as JInt else (b as JInt) | 0xFFFF_FF00
  }

  /** The narrowing cast `(short) x`: Java keeps the low 16 bits. */
  function ToShort(x: JInt): Short
  {
    (x & 0xFFFF) as Short
  }

  /** Widening a `short` to an `int`: sign extension. */
  function WidenShort(b: Short): JInt
  {
    if b < 0x8000 then b as JInt else (b as JInt) | 0xFFFF_0000
  }

  /** The characters `Character.isWhitespace` accepts: the space, line and
      paragraph separators other than the non-breaking spaces U+00A0, U+2007
      and U+202F, and the controls U+0009-U+000D and U+001C-U+001F. */
  predicate IsWhitespace(c: char)
  {
    || ('\U{0009}' <= c <= '\U{000D}')
    || ('\U{001C}' <= c <= '\U{0020}')
    || c == '\U{1680}'
    || ('\U{2000}' <= c <= '\U{2006}')
    || ('\U{2008}' <= c <= '\U{200A}')
    || c == '\U{2028}' || c == '\U{2029}'
    || c == '\U{205F}' || c == '\U{3000}'
  }

  /** `String.isBlank`: true of the empty string and of one made only of whitespace. */
  function IsBlank(s: string): (b: bool)
    ensures b <==> forall i :: 0 <= i < |s| ==> IsWhitespace(s[i])
  {
    if s == [] then true
    else IsWhitespace(s[0]) && IsBlank(s[1..])
  }
}
