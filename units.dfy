/** Code units, the two storage variants of a string value, the outcome of an
    operation that may throw, and the opaque capabilities the string consults. */
module Units {

  /** A UTF-16 code unit, the value of a Java `char`. */
  type Unit = x: int | 0 <= x < 0x1_0000

  /** A Java `byte`: signed, 8 bits. */
  type Int8 = x: int | -0x80 <= x < 0x80

  /** A Java `int`: signed, 32 bits. */
  type Int32 = x: int | -0x8000_0000 <= x < 0x8000_0000

  /** Java's 32-bit two's-complement wrap-around of an unbounded integer. */
  function Wrap32(x: int): Int32
  {
    (x + 0x8000_0000) % 0x1_0000_0000 - 0x8000_0000
  }

  /** `(char) b`: sign-extend the byte, keep the low 16 bits. */
  function ByteToChar(b: Int8): Unit
  {
    if b < 0 then b + 0x1_0000 else b
  }

  /** `(byte) c`: keep the low 8 bits of the unit, read them as signed. */
  function CharToByte(c: Unit): Int8
  {
    var low := c % 0x100;
    if low < 0x80 then low else low - 0x100
  }

  /** `b & 0xFF`: the byte read as unsigned. */
  function LowByte(b: Int8): (r: int)
    ensures 0 <= r < 0x100
    ensures r % 0x100 == b % 0x100
  {
    if b < 0 then b + 0x100 else b
  }

  /** A signed byte survives the round trip through a `char` unchanged, and
      only bytes 0..127 read as the unit of the same value. */
  lemma ByteCharRoundTrip(b: Int8)
    ensures CharToByte(ByteToChar(b)) == b
    ensures ByteToChar(b) < 0x80 <==> 0 <= b
    ensures b < 0 ==> 0xFF80 <= ByteToChar(b)
  {
    if b < 0 {
      assert ByteToChar(b) == (0xFF * 0x100) + (b + 0x100);
      assert ByteToChar(b) % 0x100 == b + 0x100;
    }
  }

  /** The `data` field: exactly one of a `char[]` or a `byte[]`. */
  datatype Storage = Wide(chars: seq<Unit>) | Compact(bytes: seq<Int8>)
  {
    /** `length()`: the size of whichever array is present. */
    function Length(): nat
    {
      match this
      case Wide(c) => |c|
      case Compact(b) => |b|
    }

    /** The unit at `i`, read as `charAt` reads it: compact bytes are cast
        to `char` with sign extension. */
    function At(i: nat): Unit
      requires i < Length()
    {
      match this
      case Wide(c) => c[i]
      case Compact(b) => ByteToChar(b[i])
    }

    /** The unit sequence every accessor observes. */
    function Contents(): (s: seq<Unit>)
      ensures |s| == Length()
      ensures forall i :: 0 <= i < |s| ==> s[i] == At(i)
    {
      seq(Length(), i requires 0 <= i < Length() => At(i))
    }
  }

  /** The units a byte array stands for when read through compact storage. */
  function Widen(b: seq<Int8>): (s: seq<Unit>)
    ensures |s| == |b|
  {
    seq(|b|, i requires 0 <= i < |b| => ByteToChar(b[i]))
  }

  /** Representation transparency: compact storage and wide storage holding
      the widened bytes present the same units, so every operation that reads
      through `length()` and `charAt` agrees on them. */
  lemma CompactWideAgree(b: seq<Int8>)
    ensures Compact(b).Contents() == Wide(Widen(b)).Contents()
    ensures Compact(b).Length() == Wide(Widen(b)).Length()
  {
  }

  /** The exceptions the string operations throw. */
  datatype Exception =
    | IndexOutOfBounds          // java.lang.IndexOutOfBoundsException
    | StringIndexOutOfBounds    // java.lang.StringIndexOutOfBoundsException
    | ArrayIndexOutOfBounds     // an array access past either end
    | NegativeArraySize         // `new char[n]` with n < 0
    | UnableToParse             // RuntimeException: the UTF-8 decoder gave up
    | UnsupportedEncoding       // java.io.UnsupportedEncodingException
    | UnsupportedOperation      // a locale other than English
    | StackOverflow             // unbounded re-entry of the private constructor

  /** The result of an operation that either returns or throws. */
  datatype Outcome<+T> = Ok(value: T) | Thrown(exc: Exception)

  datatype Option<+T> = None | Some(value: T)

  /** The per-unit character classification of `java.lang.Character`. */
  datatype Character = Character(
    isWhitespace: Unit -> bool,
    toLowerCase: Unit -> Unit,
    toUpperCase: Unit -> Unit)

  /** The byte codecs: `Utf8.test`, `Utf8.decode(data, offset, length)`
      (None when it returns null), `Utf8.encode` and `Iso88591.encode`. */
  datatype Codecs = Codecs(
    test: Storage -> bool,
    decode: (seq<Int8>, int, int) -> Option<Storage>,
    encodeUtf8: seq<Unit> -> seq<Int8>,
    encodeLatin1: seq<Unit> -> seq<Int8>)

  /** The storage the private constructor `String(Object, offset, length, copy)`
      installs, or the exception it throws. When the decoder gives up, the
      constructor builds its message with `new String(data, offset, length,
      false)`, which re-enters this constructor: if `Utf8.test` forces a copy
      there, the same range is decoded, fails again, and the re-entry never
      ends; otherwise the message is built and `UnableToParse` is thrown. */
  function Build(src: Storage, offset: int, length: int, copy: bool, codecs: Codecs): Outcome<Storage>
  {
    if offset < 0 || offset + length > src.Length() then Thrown(IndexOutOfBounds)
    else if !copy && !codecs.test(src) then Ok(src)
    else match src
      case Wide(c) =>
        if length < 0 then Thrown(NegativeArraySize) else Ok(Wide(c[offset..offset + length]))
      case Compact(b) =>
        match codecs.decode(b, offset, length)
        case None => if codecs.test(src) then Thrown(StackOverflow) else Thrown(UnableToParse)
        case Some(st) => Ok(st)
  }

  /** A copying build from a `char[]` succeeds exactly on an in-bounds,
      non-negative range and holds exactly the units of that range. */
  lemma BuildWideCopy(c: seq<Unit>, offset: int, length: int, codecs: Codecs)
    ensures Build(Wide(c), offset, length, true, codecs).Ok?
        <==> 0 <= offset && 0 <= length && offset + length <= |c|
    ensures Build(Wide(c), offset, length, true, codecs).Ok? ==>
              Build(Wide(c), offset, length, true, codecs).value.Contents() == c[offset..offset + length]
  {
  }

  /** Without a copy the constructor keeps the whole source array, whatever
      sub-range was asked for, unless the decoder's test forces a copy. */
  lemma BuildAliasesWhole(src: Storage, offset: int, length: int, codecs: Codecs)
    requires 0 <= offset && offset + length <= src.Length()
    requires !codecs.test(src)
    ensures Build(src, offset, length, false, codecs) == Ok(src)
  {
  }

  /** A failed decode surfaces as `UnableToParse` only when the message's
      own non-copying construction is not forced to decode again; when it
      is, the constructor recurses without end. */
  lemma BuildDecodeFailure(b: seq<Int8>, offset: int, length: int, copy: bool, codecs: Codecs)
    requires 0 <= offset && offset + length <= |b|
    requires copy || codecs.test(Compact(b))
    requires codecs.decode(b, offset, length) == None
    ensures Build(Compact(b), offset, length, copy, codecs)
         == if codecs.test(Compact(b)) then Thrown(StackOverflow) else Thrown(UnableToParse)
  {
  }

  /** The units of `substring(start, end)`: the whole value, the empty value,
      or a copying build of the range; a range outside `0..length` throws. */
  function SubstringUnits(st: Storage, start: int, end: int, codecs: Codecs): Outcome<seq<Unit>>
  {
    if !(0 <= start <= end <= st.Length()) then Thrown(StringIndexOutOfBounds)
    else if start == 0 && end == st.Length() then Ok(st.Contents())
    else if end == start then Ok([])
    else match Build(st, start, end - start, true, codecs)
      case Ok(built) => Ok(built.Contents())
      case Thrown(e) => Thrown(e)
  }

  /** On wide storage `substring(start, end)` succeeds exactly when
      `0 <= start <= end <= length` and yields units `start..end-1`. */
  lemma SubstringUnitsWide(c: seq<Unit>, start: int, end: int, codecs: Codecs)
    ensures SubstringUnits(Wide(c), start, end, codecs)
         == if 0 <= start <= end <= |c| then Ok(c[start..end]) else Thrown(StringIndexOutOfBounds)
  {
    if 0 <= start <= end <= |c| {
      if start == 0 && end == |c| {
        assert c[start..end] == c;
        assert Wide(c).Contents() == c;
      } else if start < end {
        BuildWideCopy(c, start, end - start, codecs);
      }
    }
  }
}
