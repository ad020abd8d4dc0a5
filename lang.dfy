/** The immutable string value: its one storage field, the lazily cached
    hash, and the operations of `java.lang.String`. Searching, comparison,
    hashing and case conversion read the units through `length()` and
    `charAt`; `substring` (and so `trim`, the prefix, suffix and region tests,
    and the pieces of `replace`) hands the storage itself to the private
    constructor, which copies or decodes it; the constructors, `getBytes`,
    `getChars`, `getBytes(String)` and the byte branch of `replace(char,
    char)` read the arrays directly. */
module Lang {
  import opened Units
  import opened Ordering
  import opened Search
  import opened Transform

  /** The locale argument of the case conversions: only `Locale.ENGLISH`
      is supported. */
  datatype Locale = English | OtherLocale

  /** The units of an ASCII literal such as "UTF-8". */
  function Ascii(s: string): (r: seq<Unit>)
    ensures |r| == |s|
  {
    seq(|s|, i requires 0 <= i < |s| => (s[i] as int) % 0x1_0000)
  }

  /** The array `base` after `vals` has been written starting at `at`
      (positions outside `base` are not written). */
  function Overlay<T>(base: seq<T>, at: int, vals: seq<T>): (r: seq<T>)
    ensures |r| == |base|
  {
    seq(|base|, j requires 0 <= j < |base| =>
      if at <= j < at + |vals| then vals[j - at] else base[j])
  }

  /** How many elements a copying loop `for i < n: dst[off + i] := ...`
      writes into an array of `size` elements before it stops or fails. */
  function Written(n: int, off: int, size: nat): (k: nat)
    ensures k <= size && (n <= 0 ==> k == 0) && (0 < n ==> k <= n)
    ensures 0 < n && 0 <= off && off + n <= size ==> k == n
  {
    if n <= 0 || off < 0 || off >= size then 0
    else if off + n <= size then n
    else size - off
  }

  /** The low 8 bits of every unit, as `(byte) c` keeps them. */
  function LowBytes(c: seq<Unit>): (r: seq<Int8>)
    ensures |r| == |c|
  {
    seq(|c|, i requires 0 <= i < |c| => CharToByte(c[i]))
  }

  /** A predicate lifted over an `Outcome`: `p` of the units an operation
      produced, or the exception producing them threw. */
  function HoldsOf(u: Outcome<seq<Unit>>, p: seq<Unit> -> bool): Outcome<bool>
  {
    match u
    case Ok(v) => Ok(p(v))
    case Thrown(e) => Thrown(e)
  }

  /** The units of `substring(start)`: `start == 0` gives the whole value,
      otherwise a copying build of the FIRST `length - start` units. */
  function SubstringFromUnits(st: Storage, start: int, codecs: Codecs): Outcome<seq<Unit>>
  {
    if start == 0 then Ok(st.Contents())
    else if start < 0 || start > st.Length() then Thrown(StringIndexOutOfBounds)
    else match Build(st, 0, st.Length() - start, true, codecs)
      case Ok(built) => Ok(built.Contents())
      case Thrown(e) => Thrown(e)
  }

  /** On wide storage `substring(start)` yields a prefix, not a suffix. */
  lemma SubstringFromIsPrefix(c: seq<Unit>, start: int, codecs: Codecs)
    requires 0 <= start <= |c|
    ensures SubstringFromUnits(Wide(c), start, codecs) == Ok(c[..|c| - start])
  {
    assert Wide(c).Contents() == c;
    if start == 0 {
      assert c[..|c|] == c;
    } else {
      BuildWideCopy(c, 0, |c| - start, codecs);
    }
  }

  /** The answer of `regionMatches` from the two regions `substring` cut
      (or the exception cutting the first, then the second, threw). */
  function Region(a: Outcome<seq<Unit>>, b: Outcome<seq<Unit>>, ignoreCase: bool, lower: Unit -> Unit): Outcome<bool>
  {
    if a.Thrown? then Thrown(a.exc)
    else if b.Thrown? then Thrown(b.exc)
    else if ignoreCase then Ok(MapUnits(lower, a.value) == MapUnits(lower, b.value))
    else Ok(a.value == b.value)
  }

  /** On wide storage `regionMatches` throws exactly when either region
      leaves its string, and otherwise compares the two slices. */
  lemma RegionMatchesWide(c: seq<Unit>, thisOffset: int, d: seq<Unit>, otherOffset: int, length: int,
                          ignoreCase: bool, lower: Unit -> Unit, codecs: Codecs)
    ensures Region(SubstringUnits(Wide(c), thisOffset, thisOffset + length, codecs),
                   SubstringUnits(Wide(d), otherOffset, otherOffset + length, codecs), ignoreCase, lower)
         == if 0 <= thisOffset && 0 <= length && thisOffset + length <= |c|
               && 0 <= otherOffset && otherOffset + length <= |d|
            then Ok(if ignoreCase
                    then MapUnits(lower, c[thisOffset..thisOffset + length])
                         == MapUnits(lower, d[otherOffset..otherOffset + length])
                    else c[thisOffset..thisOffset + length] == d[otherOffset..otherOffset + length])
            else Thrown(StringIndexOutOfBounds)
  {
    SubstringUnitsWide(c, thisOffset, thisOffset + length, codecs);
    SubstringUnitsWide(d, otherOffset, otherOffset + length, codecs);
  }

  /** `System.arraycopy(src, srcOffset, dst, dstOffset, length)`: every
      bound is checked before anything is written. */
  method ArrayCopy<T>(src: seq<T>, srcOffset: int, dst: array<T>, dstOffset: int, length: int)
    returns (r: Outcome<()>)
    modifies dst
    ensures 0 <= srcOffset && srcOffset + length <= |src| ==>
              if length < 0 || dstOffset < 0 || dstOffset + length > dst.Length
              then r == Thrown(IndexOutOfBounds) && dst[..] == old(dst[..])
              else r.Ok? && dst[..] == Overlay(old(dst[..]), dstOffset, src[srcOffset..srcOffset + length])
    ensures !(0 <= srcOffset && srcOffset + length <= |src|) ==> r == Thrown(IndexOutOfBounds) && dst[..] == old(dst[..])
  {
    if srcOffset < 0 || length < 0 || srcOffset + length > |src| || dstOffset < 0 || dstOffset + length > dst.Length {
      return Thrown(IndexOutOfBounds);
    }
    forall i | 0 <= i < length {
      dst[dstOffset + i] := src[srcOffset + i];
    }
    return Ok(());
  }

  /** A loop `for i < |vals|: dst[off + i] = vals[i]`: a write outside
      `dst` throws, after the writes before it have happened. */
  method CopyEach<T>(vals: seq<T>, dst: array<T>, off: int) returns (r: Outcome<()>)
    modifies dst
    ensures var k := Written(|vals|, off, dst.Length);
      && dst[..] == Overlay(old(dst[..]), off, vals[..k])
      && (r.Ok? <==> k == |vals|)
      && (r.Thrown? ==> r.exc == ArrayIndexOutOfBounds)
  {
    ghost var k := Written(|vals|, off, dst.Length);
    var i := 0;
    while i < |vals|
      invariant 0 <= i <= k
      invariant dst[..] == Overlay(old(dst[..]), off, vals[..i])
    {
      if off + i < 0 || off + i >= dst.Length {
        return Thrown(ArrayIndexOutOfBounds);
      }
      OverlayExtend(old(dst[..]), off, vals, i);
      dst[off + i] := vals[i];
      i := i + 1;
    }
    assert vals[..i] == vals;
    return Ok(());
  }

  lemma OverlayExtend<T>(base: seq<T>, at: int, vals: seq<T>, i: nat)
    requires i < |vals| && 0 <= at + i < |base|
    ensures Overlay(base, at, vals[..i + 1]) == Overlay(base, at, vals[..i])[at + i := vals[i]]
  {
  }

  /** The units `trim()` keeps: those between the first and one past the
      last non-whitespace unit, or none. */
  function Trimmed(a: seq<Unit>, ws: Unit -> bool): (r: seq<Unit>)
    ensures |r| <= |a|
  {
    TrimBounds(a, ws);
    var start, end := FirstNonSpace(a, ws, 0), LastNonSpaceEnd(a, ws, |a| - 1);
    if start >= end then [] else a[start..end]
  }

  /** The units `trim()` yields: none when its start bound is not below its
      end bound, otherwise those of `substring(start, end)` between them. */
  function TrimUnits(st: Storage, ws: Unit -> bool, codecs: Codecs): Outcome<seq<Unit>>
  {
    var a := st.Contents();
    var start, end := FirstNonSpace(a, ws, 0), LastNonSpaceEnd(a, ws, |a| - 1);
    if start >= end then Ok([]) else SubstringUnits(st, start, end, codecs)
  }

  /** On `char[]` storage, `trim()` always succeeds and yields exactly the
      units `Trimmed` keeps. */
  lemma TrimUnitsWide(c: seq<Unit>, ws: Unit -> bool, codecs: Codecs)
    ensures TrimUnits(Wide(c), ws, codecs) == Ok(Trimmed(c, ws))
  {
    assert Wide(c).Contents() == c;
    TrimBounds(c, ws);
    var start, end := FirstNonSpace(c, ws, 0), LastNonSpaceEnd(c, ws, |c| - 1);
    if start < end {
      SubstringUnitsWide(c, start, end, codecs);
    }
  }

  /** A fresh `byte[]` holding `bytes`, as an encoder returns it. */
  method NewBytes(bytes: seq<Int8>) returns (b: array<Int8>)
    ensures fresh(b) && b[..] == bytes
  {
    b := new Int8[|bytes|](i requires 0 <= i < |bytes| => bytes[i]);
  }

  class String {
    /** The `char[]` or `byte[]` holding the units; never changed. */
    const data: Storage
    /** The cached hash; 0 means "not computed yet". */
    var hashCode: Int32

    /** The cache holds 0 or the true hash. */
    ghost predicate Valid()
      reads this
    {
      hashCode == 0 || hashCode == Hash(data.Contents())
    }

    /** Installs the storage, as the last step of every constructor does. */
    constructor Of(st: Storage)
      ensures data == st && hashCode == 0 && Valid()
    {
      data := st;
      hashCode := 0;
    }

    /** The units every accessor presents. */
    function Contents(): seq<Unit>
    {
      data.Contents()
    }

    /** `length()`: the number of units, whichever storage holds them. */
    function Length(): (n: nat)
      ensures n == |Contents()|
    {
      data.Length()
    }

    /** `charAt(index)`. The guard is `index > length`, so `index == length`
        passes it and fails on the array access instead. */
    function CharAt(index: int): (r: Outcome<Unit>)
      ensures 0 <= index < Length() ==> r == Ok(Contents()[index])
      ensures index < 0 || Length() < index ==> r == Thrown(StringIndexOutOfBounds)
      ensures index == Length() ==> r == Thrown(ArrayIndexOutOfBounds)
    {
      if index < 0 || index > Length() then Thrown(StringIndexOutOfBounds)
      else if index == Length() then Thrown(ArrayIndexOutOfBounds)
      else Ok(data.At(index))
    }

    function IsEmpty(): (r: bool)
      ensures r <==> Contents() == []
    {
      Length() == 0
    }

    // ------------------------------------------------------- construction

    /** The private constructor `String(Object data, offset, length, copy)`. */
    static method Create(src: Storage, offset: int, length: int, copy: bool, codecs: Codecs)
      returns (r: Outcome<String>)
      ensures r.Ok? <==> Build(src, offset, length, copy, codecs).Ok?
      ensures r.Thrown? ==> r.exc == Build(src, offset, length, copy, codecs).exc
      ensures r.Ok? ==> fresh(r.value) && r.value.Valid()
                        && r.value.data == Build(src, offset, length, copy, codecs).value
    {
      var built := Build(src, offset, length, copy, codecs);
      if built.Thrown? {
        return Thrown(built.exc);
      }
      var s := new String.Of(built.value);
      return Ok(s);
    }

    /** `String()`. */
    static method Empty() returns (r: String)
      ensures fresh(r) && r.Valid() && r.data == Wide([])
    {
      r := new String.Of(Wide([]));
    }

    /** `String(char[] data, offset, length, copy)`, and with `copy` true the
        three-argument and one-argument forms. */
    static method FromChars(src: array<Unit>, offset: int, length: int, copy: bool, codecs: Codecs)
      returns (r: Outcome<String>)
      ensures r.Ok? <==> Build(Wide(src[..]), offset, length, copy, codecs).Ok?
      ensures copy ==> (r.Ok? <==> 0 <= offset && 0 <= length && offset + length <= src.Length)
      ensures r.Thrown? && (offset < 0 || offset + length > src.Length) ==> r.exc == IndexOutOfBounds
      ensures r.Ok? ==> fresh(r.value) && r.value.Valid()
                        && r.value.data == Build(Wide(src[..]), offset, length, copy, codecs).value
      ensures r.Thrown? ==> r.exc == Build(Wide(src[..]), offset, length, copy, codecs).exc
      ensures r.Ok? && copy ==> r.value.Contents() == src[offset..offset + length]
      ensures r.Ok? && !copy && !codecs.test(Wide(src[..])) ==> r.value.Contents() == src[..]
    {
      BuildWideCopy(src[..], offset, length, codecs);
      assert Wide(src[..]).Contents() == src[..];
      r := Create(Wide(src[..]), offset, length, copy, codecs);
    }

    /** `String(byte[] data, offset, length, copy)`, and with `copy` true the
        three-argument and one-argument forms. */
    static method FromBytes(src: array<Int8>, offset: int, length: int, copy: bool, codecs: Codecs)
      returns (r: Outcome<String>)
      ensures r.Ok? <==> Build(Compact(src[..]), offset, length, copy, codecs).Ok?
      ensures r.Thrown? ==> r.exc == Build(Compact(src[..]), offset, length, copy, codecs).exc
      ensures r.Thrown? && (offset < 0 || offset + length > src.Length) ==> r.exc == IndexOutOfBounds
      ensures r.Ok? ==> fresh(r.value) && r.value.Valid()
                        && r.value.data == Build(Compact(src[..]), offset, length, copy, codecs).value
    {
      r := Create(Compact(src[..]), offset, length, copy, codecs);
    }

    /** `String(byte[] bytes, offset, length, charsetName)`: the bytes are
        decoded first; then a name other than UTF-8 or ISO-8859-1 (compared
        ignoring case) throws. */
    static method FromBytesNamed(src: array<Int8>, offset: int, length: int, charsetName: String,
                                 ch: Character, codecs: Codecs)
      returns (r: Outcome<String>)
      ensures var built := Build(Compact(src[..]), offset, length, true, codecs);
        var name := MapUnits(ch.toLowerCase, charsetName.Contents());
        var known := name == MapUnits(ch.toLowerCase, Ascii("UTF-8"))
                  || name == MapUnits(ch.toLowerCase, Ascii("ISO-8859-1"));
        && (built.Thrown? ==> r == Thrown(built.exc))
        && (built.Ok? && !known ==> r == Thrown(UnsupportedEncoding))
        && (built.Ok? && known ==> r.Ok? && r.value.data == built.value)
      ensures r.Ok? ==> fresh(r.value) && r.value.Valid()
    {
      r := FromBytes(src, offset, length, true, codecs);
      if r.Thrown? {
        return;
      }
      var utf8 := new String.Of(Wide(Ascii("UTF-8")));
      var iso := new String.Of(Wide(Ascii("ISO-8859-1")));
      var isUtf8 := charsetName.EqualsIgnoreCase(utf8, ch);
      var isIso := charsetName.EqualsIgnoreCase(iso, ch);
      if !(isUtf8 || isIso) {
        r := Thrown(UnsupportedEncoding);
      }
    }

    /** `String(String s)`: a wide copy of the units of `s`. */
    static method CopyOf(s: String) returns (r: String)
      ensures fresh(r) && r.Valid() && r.data == Wide(s.Contents())
    {
      var chars := s.ToCharArray();
      r := new String.Of(Wide(chars[..]));
    }

    /** The legacy constructor `String(byte[] bytes, highByte, offset, length)`:
        unit `i` is `(bytes[offset + i] & 0xFF) | (highByte << 8)` cut to 16
        bits. */
    static method WithHighByte(bytes: array<Int8>, highByte: Int32, offset: int, length: int)
      returns (r: Outcome<String>)
      ensures offset < 0 || offset + length > bytes.Length ==> r == Thrown(IndexOutOfBounds)
      ensures 0 <= offset && offset + length <= bytes.Length && length < 0 ==> r == Thrown(NegativeArraySize)
      ensures r.Ok? <==> 0 <= offset && 0 <= length && offset + length <= bytes.Length
      ensures r.Ok? ==> fresh(r.value) && r.value.Valid() && r.value.data.Wide?
      ensures r.Ok? ==> r.value.Length() == length
                        && forall i :: 0 <= i < length ==>
                             r.value.Contents()[i] % 0x100 == LowByte(bytes[offset + i])
                             && r.value.Contents()[i] / 0x100 == highByte % 0x100
    {
      if offset < 0 || offset + length > bytes.Length {
        return Thrown(IndexOutOfBounds);
      }
      if length < 0 {
        return Thrown(NegativeArraySize);
      }
      var c := new Unit[length];
      for i := 0 to length
        invariant forall k :: 0 <= k < i ==> c[k] == HighByteUnit(bytes[offset + k], highByte)
      {
        c[i] := HighByteUnit(bytes[offset + i], highByte);
      }
      var s := new String.Of(Wide(c[..]));
      forall i | 0 <= i < length
        ensures s.Contents()[i] % 0x100 == LowByte(bytes[offset + i])
        ensures s.Contents()[i] / 0x100 == highByte % 0x100
      {
        HighByteUnitSplit(bytes[offset + i], highByte);
      }
      return Ok(s);
    }

    // ------------------------------------------------- hash and equality

    /** `hashCode()`: computed while the cache holds 0, then stored. */
    method HashCode() returns (h: Int32)
      requires Valid()
      modifies this`hashCode
      ensures Valid() && hashCode == h
      ensures h == Hash(Contents())
      ensures old(hashCode) != 0 ==> h == old(hashCode)
    {
      if hashCode == 0 {
        var acc: Int32 := 0;
        var length := Length();
        for i := 0 to length
          invariant acc == Hash(Contents()[..i])
        {
          HashStep(Contents(), i);
          acc := Wrap32(acc * 31 + data.At(i));
        }
        assert Contents()[..length] == Contents();
        hashCode := acc;
      }
      h := hashCode;
    }

    /** `compareTo(s)`: the first unequal unit pair within the shorter
        length decides, otherwise the length difference. */
    method CompareTo(s: String) returns (r: int)
      ensures r == Compare(Contents(), s.Contents())
    {
      if this == s {
        CompareZeroIffEqual(Contents(), Contents());
        return 0;
      }
      var idx := 0;
      var length := Length();
      var end := if length < s.Length() then length else s.Length();
      while idx < end
        invariant 0 <= idx <= end
        invariant forall k :: 0 <= k < idx ==> Contents()[k] == s.Contents()[k]
      {
        var result := data.At(idx) - s.data.At(idx);
        if result != 0 {
          assert Contents()[..idx] == s.Contents()[..idx];
          CompareFirstDifference(Contents(), s.Contents(), idx);
          return result;
        }
        idx := idx + 1;
      }
      assert Contents()[..idx] == s.Contents()[..idx];
      CompareFirstDifference(Contents(), s.Contents(), idx);
      return length - s.Length();
    }

    /** `compareToIgnoreCase(s)`: as `compareTo`, on lower-cased units. */
    method CompareToIgnoreCase(s: String, ch: Character) returns (r: int)
      ensures r == CompareIgnoreCase(ch.toLowerCase, Contents(), s.Contents())
    {
      ghost var a, b := MapUnits(ch.toLowerCase, Contents()), MapUnits(ch.toLowerCase, s.Contents());
      if this == s {
        CompareZeroIffEqual(a, a);
        return 0;
      }
      var idx := 0;
      var length := Length();
      var end := if length < s.Length() then length else s.Length();
      while idx < end
        invariant 0 <= idx <= end
        invariant forall k :: 0 <= k < idx ==> a[k] == b[k]
      {
        var result := ch.toLowerCase(data.At(idx)) - ch.toLowerCase(s.data.At(idx));
        if result != 0 {
          assert a[..idx] == b[..idx];
          CompareFirstDifference(a, b, idx);
          return result;
        }
        idx := idx + 1;
      }
      assert a[..idx] == b[..idx];
      CompareFirstDifference(a, b, idx);
      return length - s.Length();
    }

    /** `equals(o)`: the same object, or a string with the same units. */
    method Equals(o: String?) returns (r: bool)
      ensures r <==> o != null && o.Contents() == Contents()
    {
      if this == o {
        return true;
      } else if o == null {
        return false;
      }
      var length := Length();
      if o.Length() != length {
        return false;
      }
      var c := CompareTo(o);
      CompareZeroIffEqual(Contents(), o.Contents());
      return c == 0;
    }

    /** `equalsIgnoreCase(o)`: the same object, or a string whose units
        lower-case to the same units. */
    method EqualsIgnoreCase(o: String?, ch: Character) returns (r: bool)
      ensures r <==> o != null && MapUnits(ch.toLowerCase, Contents()) == MapUnits(ch.toLowerCase, o.Contents())
    {
      if this == o {
        return true;
      } else if o == null {
        return false;
      }
      var length := Length();
      if o.Length() != length {
        return false;
      }
      var c := CompareToIgnoreCase(o, ch);
      CompareIgnoreCaseZero(ch.toLowerCase, Contents(), o.Contents());
      return c == 0;
    }

    // ------------------------------------------------------------- search

    /** `indexOf(int c, int start)`; `indexOf(c)` is `start == 0`. A negative
        `start` reaches `charAt(start)` and throws. */
    method IndexOfUnit(c: int, start: int := 0) returns (r: Outcome<int>)
      ensures start < 0 ==> r == Thrown(StringIndexOutOfBounds)
      ensures start >= 0 ==> r == Ok(UnitFrom(Contents(), c, start))
    {
      if start < 0 {
        return Thrown(StringIndexOutOfBounds);
      }
      var i := IndexOfUnitScan(Contents(), c, start);
      return Ok(i);
    }

    /** `indexOf(String s, int start)`; `indexOf(s)` is `start == 0`. An
        empty `s` returns `start` unchanged; a negative `start` throws as
        soon as the scan reads `charAt(start)`. */
    method IndexOf(s: String, start: int := 0) returns (r: Outcome<int>)
      ensures s.Length() == 0 ==> r == Ok(start)
      ensures s.Length() > 0 && start < 0 ==>
                r == if start < Length() - s.Length() + 1 then Thrown(StringIndexOutOfBounds) else Ok(-1)
      ensures s.Length() > 0 && start >= 0 ==> r == Ok(FindFrom(Contents(), s.Contents(), start))
    {
      var length := Length();
      if s.Length() == 0 {
        return Ok(start);
      }
      if start < 0 {
        if start < length - s.Length() + 1 {
          return Thrown(StringIndexOutOfBounds);
        }
        return Ok(-1);
      }
      var i := IndexOfScan(Contents(), s.Contents(), start);
      return Ok(i);
    }

    /** `contains(other)`: `indexOf(other) != -1`. */
    method Contains(other: String) returns (r: bool)
      ensures r <==> exists i :: MatchesAt(Contents(), other.Contents(), i)
    {
      var i := IndexOf(other, 0);
      FindFromIsFirst(Contents(), other.Contents(), 0);
      if other.Length() == 0 {
        assert MatchesAt(Contents(), other.Contents(), 0);
      }
      return i.value != -1;
    }

    /** `lastIndexOf(String s, int lastIndex)`. An empty `s` returns
        `lastIndex` unchanged. `lastIndexOf(s)` passes `length - |s|`. */
    method LastIndexOf(s: String, lastIndex: int) returns (r: int)
      ensures s.Length() == 0 ==> r == lastIndex
      ensures s.Length() > 0 ==>
                r == FindLast(Contents(), s.Contents(), if Length() - s.Length() < lastIndex then Length() - s.Length() else lastIndex)
    {
      if s.Length() == 0 {
        return lastIndex;
      }
      r := LastIndexOfScan(Contents(), s.Contents(), lastIndex);
    }

    /** `lastIndexOf(int ch, int lastIndex)`: `lastIndex` is clamped to
        `length - 1`. `lastIndexOf(ch)` passes `length - 1`. */
    method LastIndexOfUnit(c: int, lastIndex: int) returns (r: int)
      ensures r == UnitBefore(Contents(), c, if lastIndex >= Length() then Length() - 1 else lastIndex)
    {
      r := LastIndexOfUnitScan(Contents(), c, lastIndex);
    }

    // ---------------------------------------------- substrings and tests

    /** `substring(start, end)`: outside `0 <= start <= end <= length` it
        throws; the whole range returns this very object, an empty range
        the shared empty string, anything else a fresh copy. */
    method Substring(start: int, end: int, empty: String, codecs: Codecs) returns (r: Outcome<String>)
      requires empty.Contents() == []
      ensures r.Ok? <==> SubstringUnits(data, start, end, codecs).Ok?
      ensures r.Thrown? ==> r.exc == SubstringUnits(data, start, end, codecs).exc
      ensures r.Ok? ==> r.value.Contents() == SubstringUnits(data, start, end, codecs).value
      ensures start == 0 && end == Length() ==> r == Ok(this)
      ensures 0 <= start == end <= Length() && !(start == 0 && end == Length()) ==> r == Ok(empty)
      ensures r.Ok? && r.value != this && r.value != empty ==> fresh(r.value) && r.value.Valid()
      ensures r.Ok? && start != end && !(start == 0 && end == Length()) ==> fresh(r.value) && r.value.Valid()
      ensures data.Wide? ==> (r.Ok? <==> 0 <= start <= end <= Length())
                             && (r.Ok? ==> r.value.Contents() == Contents()[start..end])
    {
      if data.Wide? {
        SubstringUnitsWide(data.chars, start, end, codecs);
        assert data.chars == Contents();
      }
      var length := Length();
      if start >= 0 && end >= start && end <= length {
        if start == 0 && end == length {
          return Ok(this);
        } else if end - start == 0 {
          return Ok(empty);
        } else {
          r := Create(data, start, end - start, true, codecs);
        }
      } else {
        return Thrown(StringIndexOutOfBounds);
      }
    }

    /** `substring(start)`: copies the first `length - start` units. */
    method SubstringFrom(start: int, codecs: Codecs) returns (r: Outcome<String>)
      ensures r.Ok? <==> SubstringFromUnits(data, start, codecs).Ok?
      ensures r.Thrown? ==> r.exc == SubstringFromUnits(data, start, codecs).exc
      ensures r.Ok? ==> r.value.Contents() == SubstringFromUnits(data, start, codecs).value
      ensures start == 0 ==> r == Ok(this)
      ensures r.Ok? && r.value != this ==> fresh(r.value) && r.value.Valid()
      ensures r.Ok? && start != 0 ==> fresh(r.value) && r.value.Valid()
    {
      if start == 0 {
        return Ok(this);
      }
      var length := Length();
      if start < 0 || start > length {
        return Thrown(StringIndexOutOfBounds);
      }
      r := Create(data, 0, length - start, true, codecs);
    }

    /** `startsWith(s)`: `substring(0, |s|)` compared with `s`. On wide
        storage this is the prefix test. */
    method StartsWith(s: String, empty: String, codecs: Codecs) returns (r: Outcome<bool>)
      requires empty.Contents() == []
      ensures r == if Length() >= s.Length()
                   then HoldsOf(SubstringUnits(data, 0, s.Length(), codecs), u => u == s.Contents())
                   else Ok(false)
      ensures data.Wide? ==> r == Ok(s.Length() <= Length() && Contents()[..s.Length()] == s.Contents())
    {
      var length := Length();
      if length >= s.Length() {
        var sub := Substring(0, s.Length(), empty, codecs);
        if sub.Thrown? {
          return Thrown(sub.exc);
        }
        var c := sub.value.CompareTo(s);
        CompareZeroIffEqual(sub.value.Contents(), s.Contents());
        r := Ok(c == 0);
      } else {
        r := Ok(false);
      }
      if data.Wide? {
        SubstringUnitsWide(data.chars, 0, s.Length(), codecs);
        assert data.chars == Contents();
      }
    }

    /** `startsWith(s, start)`: the length guard uses `|s| + start`, but the
        substring taken is `substring(start, |s|)`, so on wide storage only
        `start == 0` can succeed, `0 < start <= |s|` answers false, and any
        other `start` throws. */
    method StartsWithAt(s: String, start: int, empty: String, codecs: Codecs) returns (r: Outcome<bool>)
      requires empty.Contents() == []
      ensures r == if Length() >= s.Length() + start
                   then HoldsOf(SubstringUnits(data, start, s.Length(), codecs), u => u == s.Contents())
                   else Ok(false)
      ensures data.Wide? && Length() >= s.Length() + start ==>
                r == if start == 0 then Ok(Contents()[..s.Length()] == s.Contents())
                     else if 0 < start <= s.Length() then Ok(false)
                     else Thrown(StringIndexOutOfBounds)
    {
      var length := Length();
      if length >= s.Length() + start {
        var sub := Substring(start, s.Length(), empty, codecs);
        if sub.Thrown? {
          r := Thrown(sub.exc);
        } else {
          var c := sub.value.CompareTo(s);
          CompareZeroIffEqual(sub.value.Contents(), s.Contents());
          r := Ok(c == 0);
        }
        if data.Wide? {
          SubstringUnitsWide(data.chars, start, s.Length(), codecs);
          assert data.chars == Contents();
        }
      } else {
        r := Ok(false);
      }
    }

    /** `endsWith(s)`: `substring(length - |s|)` compared with `s`. Because
        `substring(int)` keeps a prefix, on wide storage this is the same
        prefix test as `startsWith(s)`. */
    method EndsWith(s: String, codecs: Codecs) returns (r: Outcome<bool>)
      ensures r == if Length() >= s.Length()
                   then HoldsOf(SubstringFromUnits(data, Length() - s.Length(), codecs), u => u == s.Contents())
                   else Ok(false)
      ensures data.Wide? ==> r == Ok(s.Length() <= Length() && Contents()[..s.Length()] == s.Contents())
    {
      var length := Length();
      if length >= s.Length() {
        var sub := SubstringFrom(length - s.Length(), codecs);
        if sub.Thrown? {
          r := Thrown(sub.exc);
        } else {
          var c := sub.value.CompareTo(s);
          CompareZeroIffEqual(sub.value.Contents(), s.Contents());
          r := Ok(c == 0);
        }
        if data.Wide? {
          SubstringFromIsPrefix(data.chars, length - s.Length(), codecs);
          assert data.chars == Contents();
        }
      } else {
        r := Ok(false);
      }
    }

    /** `regionMatches(ignoreCase, thisOffset, other, otherOffset, length)`:
        both regions are cut with `substring` (and throw as it does), then
        compared with `equals` or `equalsIgnoreCase`;
        `regionMatches(thisOffset, other, otherOffset, length)` is the
        case-sensitive form. */
    method RegionMatches(ignoreCase: bool, thisOffset: int, other: String, otherOffset: int, length: int,
                         ch: Character, empty: String, codecs: Codecs)
      returns (r: Outcome<bool>)
      requires empty.Contents() == []
      ensures r == Region(SubstringUnits(data, thisOffset, thisOffset + length, codecs),
                          SubstringUnits(other.data, otherOffset, otherOffset + length, codecs),
                          ignoreCase, ch.toLowerCase)
    {
      var a := Substring(thisOffset, thisOffset + length, empty, codecs);
      if a.Thrown? {
        return Thrown(a.exc);
      }
      var b := other.Substring(otherOffset, otherOffset + length, empty, codecs);
      if b.Thrown? {
        return Thrown(b.exc);
      }
      var eq;
      if ignoreCase {
        eq := a.value.EqualsIgnoreCase(b.value, ch);
      } else {
        eq := a.value.Equals(b.value);
      }
      return Ok(eq);
    }

    // ------------------------------------------------------ new values

    /** `trim()`: the empty string when every unit is whitespace (or there
        is none), otherwise `substring(start, end)` between the first and
        one past the last non-whitespace unit. */
    method Trim(ch: Character, empty: String, codecs: Codecs) returns (r: Outcome<String>)
      requires empty.Contents() == []
      ensures var start := FirstNonSpace(Contents(), ch.isWhitespace, 0);
        var end := LastNonSpaceEnd(Contents(), ch.isWhitespace, Length() - 1);
        && (start >= end ==> r == Ok(empty))
        && (start == 0 && end == Length() ==> r == Ok(this))
        && (r.Ok? && start < end && !(start == 0 && end == Length()) ==> fresh(r.value) && r.value.Valid())
        && (data.Wide? ==> r.Ok? && r.value.Contents() == Trimmed(Contents(), ch.isWhitespace))
      ensures r.Ok? <==> TrimUnits(data, ch.isWhitespace, codecs).Ok?
      ensures r.Thrown? ==> r.exc == TrimUnits(data, ch.isWhitespace, codecs).exc
      ensures r.Ok? ==> r.value.Contents() == TrimUnits(data, ch.isWhitespace, codecs).value
      ensures r.Ok? && r.value != this && r.value != empty ==> fresh(r.value) && r.value.Valid()
    {
      var start, end := TrimScan(Contents(), ch.isWhitespace);
      if data.Wide? {
        assert data.chars == Contents();
        TrimUnitsWide(data.chars, ch.isWhitespace, codecs);
      }
      if start >= end {
        return Ok(empty);
      }
      r := Substring(start, end, empty, codecs);
    }

    /** The shared loop of `toLowerCase()` and `toUpperCase()`: if some unit
        changes under `f`, a fresh wide copy of the mapped units, otherwise
        this very object. */
    method Recase(f: Unit -> Unit) returns (r: String)
      ensures r.Contents() == MapUnits(f, Contents())
      ensures (forall i :: 0 <= i < Length() ==> f(Contents()[i]) == Contents()[i]) ==> r == this
      ensures r != this ==> fresh(r) && r.Valid() && r.data.Wide?
    {
      var length := Length();
      for j := 0 to length
        invariant forall k :: 0 <= k < j ==> f(Contents()[k]) == Contents()[k]
      {
        var c := data.At(j);
        if f(c) != c {
          var b := new Unit[length];
          for i := 0 to length
            invariant forall k :: 0 <= k < i ==> b[k] == f(Contents()[k])
          {
            b[i] := f(data.At(i));
          }
          r := new String.Of(Wide(b[..]));
          return;
        }
      }
      assert MapUnits(f, Contents()) == Contents();
      return this;
    }

    /** `toLowerCase()`. */
    method ToLowerCase(ch: Character) returns (r: String)
      ensures r.Contents() == MapUnits(ch.toLowerCase, Contents())
      ensures (forall i :: 0 <= i < Length() ==> ch.toLowerCase(Contents()[i]) == Contents()[i]) ==> r == this
      ensures r != this ==> fresh(r) && r.Valid()
    {
      r := Recase(ch.toLowerCase);
    }

    /** `toUpperCase()`. */
    method ToUpperCase(ch: Character) returns (r: String)
      ensures r.Contents() == MapUnits(ch.toUpperCase, Contents())
      ensures (forall i :: 0 <= i < Length() ==> ch.toUpperCase(Contents()[i]) == Contents()[i]) ==> r == this
      ensures r != this ==> fresh(r) && r.Valid()
    {
      r := Recase(ch.toUpperCase);
    }

    /** `toLowerCase(locale)`: English only. */
    method ToLowerCaseIn(locale: Locale, ch: Character) returns (r: Outcome<String>)
      ensures locale == English ==> r.Ok? && r.value.Contents() == MapUnits(ch.toLowerCase, Contents())
      ensures locale == English && (forall i :: 0 <= i < Length() ==> ch.toLowerCase(Contents()[i]) == Contents()[i])
              ==> r == Ok(this)
      ensures locale != English ==> r == Thrown(UnsupportedOperation)
    {
      if locale == English {
        var s := ToLowerCase(ch);
        return Ok(s);
      }
      return Thrown(UnsupportedOperation);
    }

    /** `toUpperCase(locale)`: English only. */
    method ToUpperCaseIn(locale: Locale, ch: Character) returns (r: Outcome<String>)
      ensures locale == English ==> r.Ok? && r.value.Contents() == MapUnits(ch.toUpperCase, Contents())
      ensures locale == English && (forall i :: 0 <= i < Length() ==> ch.toUpperCase(Contents()[i]) == Contents()[i])
              ==> r == Ok(this)
      ensures locale != English ==> r == Thrown(UnsupportedOperation)
    {
      if locale == English {
        var s := ToUpperCase(ch);
        return Ok(s);
      }
      return Thrown(UnsupportedOperation);
    }

    /** `replace(char oldChar, char newChar)`: a fresh buffer of the same
        width. The byte branch compares with `(byte) oldChar`, so only the
        low 8 bits of `oldChar` count there, and its result goes through the
        non-copying constructor. */
    method ReplaceUnit(oldChar: Unit, newChar: Unit, codecs: Codecs) returns (r: Outcome<String>)
      ensures data.Wide? ==> r.Ok? && r.value.Contents() == Replaced(Contents(), oldChar, newChar)
      ensures data.Compact? ==>
        var built := Build(Compact(Replaced(data.bytes, CharToByte(oldChar), CharToByte(newChar))),
                           0, Length(), false, codecs);
        (r.Ok? <==> built.Ok?) && (r.Ok? ==> r.value.data == built.value)
      ensures r.Ok? ==> fresh(r.value) && r.value.Valid()
    {
      var length := Length();
      match data
      case Wide(orig) =>
        var buf := new Unit[length];
        for i := 0 to length
          invariant forall k :: 0 <= k < i ==> buf[k] == Replaced(orig, oldChar, newChar)[k]
        {
          if orig[i] == oldChar {
            buf[i] := newChar;
          } else {
            buf[i] := orig[i];
          }
        }
        assert buf[..] == Replaced(orig, oldChar, newChar);
        assert orig == Contents();
        BuildWideCopy(buf[..], 0, length, codecs);
        r := Create(Wide(buf[..]), 0, length, false, codecs);
      case Compact(orig) =>
        var buf := new Int8[length];
        var oldByte, newByte := CharToByte(oldChar), CharToByte(newChar);
        for i := 0 to length
          invariant forall k :: 0 <= k < i ==> buf[k] == Replaced(orig, oldByte, newByte)[k]
        {
          if orig[i] == oldByte {
            buf[i] := newByte;
          } else {
            buf[i] := orig[i];
          }
        }
        assert buf[..] == Replaced(orig, oldByte, newByte);
        r := Create(Compact(buf[..]), 0, length, false, codecs);
    }

    /** `replace(target, replacement)`: an empty target infuses the
        replacement around every unit; otherwise occurrences are replaced
        left to right without overlap. */
    method Replace(target: String, replacement: String) returns (r: String)
      ensures target.Length() == 0 ==> r.Contents() == Infuse(Contents(), replacement.Contents())
      ensures target.Length() > 0 ==> r.Contents() == ReplaceAll(Contents(), target.Contents(), replacement.Contents())
      ensures fresh(r) && r.Valid()
    {
      if target.Length() == 0 {
        r := InfuseWith(replacement);
        return;
      }
      var units := ReplaceScan(Contents(), target.Contents(), replacement.Contents());
      r := new String.Of(Wide(units));
    }

    /** `infuse(with)`: `with` before every unit and once more at the end. */
    method InfuseWith(with: String) returns (r: String)
      ensures r.Contents() == Infuse(Contents(), with.Contents())
      ensures fresh(r) && r.Valid()
    {
      var units := InfuseScan(Contents(), with.Contents());
      r := new String.Of(Wide(units));
    }

    /** `concat(s)`: this very object when `s` is empty, otherwise a fresh
        value holding both. */
    method Concat(s: String) returns (r: String)
      ensures r.Contents() == Contents() + s.Contents()
      ensures s.Length() == 0 ==> r == this
      ensures s.Length() > 0 ==> fresh(r) && r.Valid()
    {
      if s.Length() == 0 {
        assert Contents() + s.Contents() == Contents();
        return this;
      }
      r := new String.Of(Wide(Contents() + s.Contents()));
    }

    // ------------------------------------------------ bulk extraction

    /** `getBytes(srcOffset, srcLength, dst, dstOffset)`. The source range
        is checked first. A `char[]` is copied unit by unit, keeping the low
        8 bits; a `byte[]` goes through `System.arraycopy`. */
    method GetBytes(srcOffset: int, srcLength: int, dst: array<Int8>, dstOffset: int) returns (r: Outcome<()>)
      modifies dst
      ensures srcOffset < 0 || srcOffset + srcLength > Length() ==>
                r == Thrown(IndexOutOfBounds) && dst[..] == old(dst[..])
      ensures 0 <= srcOffset && srcOffset + srcLength <= Length() && data.Wide? ==>
                var sent := if srcLength <= 0 then [] else LowBytes(data.chars[srcOffset..srcOffset + srcLength]);
                var k := Written(srcLength, dstOffset, dst.Length);
                && dst[..] == Overlay(old(dst[..]), dstOffset, sent[..k])
                && (r.Ok? <==> k == |sent|)
                && (r.Thrown? ==> r.exc == ArrayIndexOutOfBounds)
      ensures 0 <= srcOffset && srcOffset + srcLength <= Length() && data.Compact? ==>
                if srcLength < 0 || dstOffset < 0 || dstOffset + srcLength > dst.Length
                then r == Thrown(IndexOutOfBounds) && dst[..] == old(dst[..])
                else r.Ok? && dst[..] == Overlay(old(dst[..]), dstOffset, data.bytes[srcOffset..srcOffset + srcLength])
    {
      var length := Length();
      if srcOffset < 0 || srcOffset + srcLength > length {
        return Thrown(IndexOutOfBounds);
      }
      match data
      case Wide(src) =>
        var sent := if srcLength <= 0 then [] else LowBytes(src[srcOffset..srcOffset + srcLength]);
        r := CopyEach(sent, dst, dstOffset);
      case Compact(src) =>
        r := ArrayCopy(src, srcOffset, dst, dstOffset, srcLength);
    }

    /** `getChars(srcOffset, srcEnd, dst, dstOffset)`. The source range is
        checked first. A `char[]` goes through `System.arraycopy`; a
        `byte[]` is copied byte by byte, each cast to `char` with sign
        extension. */
    method GetChars(srcOffset: int, srcEnd: int, dst: array<Unit>, dstOffset: int) returns (r: Outcome<()>)
      modifies dst
      ensures srcOffset < 0 || srcEnd > Length() ==>
                r == Thrown(StringIndexOutOfBounds) && dst[..] == old(dst[..])
      ensures 0 <= srcOffset && srcEnd <= Length() && data.Wide? ==>
                var n := srcEnd - srcOffset;
                if n < 0 || dstOffset < 0 || dstOffset + n > dst.Length
                then r == Thrown(IndexOutOfBounds) && dst[..] == old(dst[..])
                else r.Ok? && dst[..] == Overlay(old(dst[..]), dstOffset, Contents()[srcOffset..srcEnd])
      ensures 0 <= srcOffset && srcEnd <= Length() && data.Compact? ==>
                var n := srcEnd - srcOffset;
                var sent := if n <= 0 then [] else Contents()[srcOffset..srcEnd];
                var k := Written(n, dstOffset, dst.Length);
                && dst[..] == Overlay(old(dst[..]), dstOffset, sent[..k])
                && (r.Ok? <==> k == |sent|)
                && (r.Thrown? ==> r.exc == ArrayIndexOutOfBounds)
    {
      var length := Length();
      if srcOffset < 0 || srcEnd > length {
        return Thrown(StringIndexOutOfBounds);
      }
      var srcLength := srcEnd - srcOffset;
      match data
      case Wide(src) =>
        r := ArrayCopy(src, srcOffset, dst, dstOffset, srcLength);
        assert src == Contents();
      case Compact(src) =>
        var sent := if srcLength <= 0 then [] else Widen(src[srcOffset..srcEnd]);
        assert srcLength > 0 ==> sent == Contents()[srcOffset..srcEnd];
        r := CopyEach(sent, dst, dstOffset);
    }

    /** `getBytes(format)`: compact storage is copied out whatever the
        format; otherwise the trimmed, upper-cased format name selects the
        UTF-8 or the ISO-8859-1 encoder (which also answers to LATIN-1). */
    method GetBytesIn(format: String, ch: Character, empty: String, codecs: Codecs)
      returns (r: Outcome<array<Int8>>)
      requires empty.Contents() == []
      ensures data.Compact? ==> r.Ok? && r.value[..] == data.bytes
      ensures data.Wide? && format.data.Wide? ==>
        var name := MapUnits(ch.toUpperCase, Trimmed(format.Contents(), ch.isWhitespace));
        if name == Ascii("UTF-8") then r.Ok? && r.value[..] == codecs.encodeUtf8(Contents())
        else if name == Ascii("ISO-8859-1") || name == Ascii("LATIN-1")
        then r.Ok? && r.value[..] == codecs.encodeLatin1(Contents())
        else r == Thrown(UnsupportedEncoding)
      ensures data.Wide? ==>
        match TrimUnits(format.data, ch.isWhitespace, codecs)
        case Thrown(e) => r == Thrown(e)
        case Ok(cut) =>
          var name := MapUnits(ch.toUpperCase, cut);
          if name == Ascii("UTF-8") then r.Ok? && r.value[..] == codecs.encodeUtf8(Contents())
          else if name == Ascii("ISO-8859-1") || name == Ascii("LATIN-1")
          then r.Ok? && r.value[..] == codecs.encodeLatin1(Contents())
          else r == Thrown(UnsupportedEncoding)
      ensures r.Ok? ==> fresh(r.value)
    {
      if data.Compact? {
        var b := CopyOut();
        return Ok(b);
      }
      var fmt := format.EncodingName(ch, empty, codecs);
      if fmt.Thrown? {
        return Thrown(fmt.exc);
      }
      var utf8 := new String.Of(Wide(Ascii("UTF-8")));
      var isUtf8 := utf8.Equals(fmt.value);
      if isUtf8 {
        var b := NewBytes(codecs.encodeUtf8(Contents()));
        return Ok(b);
      }
      var iso := new String.Of(Wide(Ascii("ISO-8859-1")));
      var latin1 := new String.Of(Wide(Ascii("LATIN-1")));
      var isIso := iso.Equals(fmt.value);
      var isLatin1 := latin1.Equals(fmt.value);
      if isIso || isLatin1 {
        var b := NewBytes(codecs.encodeLatin1(Contents()));
        return Ok(b);
      }
      return Thrown(UnsupportedEncoding);
    }

    /** `format.trim().toUpperCase()`, the normalised encoding name. */
    method EncodingName(ch: Character, empty: String, codecs: Codecs) returns (r: Outcome<String>)
      requires empty.Contents() == []
      ensures data.Wide? ==> r.Ok? && r.value.Contents() == MapUnits(ch.toUpperCase, Trimmed(Contents(), ch.isWhitespace))
      ensures var cut := TrimUnits(data, ch.isWhitespace, codecs);
        && (r.Ok? <==> cut.Ok?)
        && (r.Thrown? ==> r.exc == cut.exc)
        && (r.Ok? ==> r.value.Contents() == MapUnits(ch.toUpperCase, cut.value))
    {
      var trimmed := Trim(ch, empty, codecs);
      if trimmed.Thrown? {
        return Thrown(trimmed.exc);
      }
      var upper := trimmed.value.ToUpperCase(ch);
      return Ok(upper);
    }

    /** `getBytes(0, length, b, 0)` into a fresh `byte[length]`. */
    method CopyOut() returns (b: array<Int8>)
      requires data.Compact?
      ensures fresh(b) && b[..] == data.bytes
    {
      var length := Length();
      b := new Int8[length];
      var _ := GetBytes(0, length, b, 0);
      assert data.bytes[0..length] == data.bytes;
    }

    /** `toCharArray()`: a fresh array holding exactly the units. */
    method ToCharArray() returns (b: array<Unit>)
      ensures fresh(b) && b[..] == Contents()
    {
      var length := Length();
      b := new Unit[length];
      var _ := GetChars(0, length, b, 0);
    }
  }

  /** Hash/equals consistency: strings that `equals` relates report the
      same `hashCode`, whichever storage either one uses. */
  method EqualStringsHashAlike(a: String, b: String) returns (same: bool, ha: Int32, hb: Int32)
    requires a.Valid() && b.Valid()
    modifies a`hashCode, b`hashCode
    ensures same ==> ha == hb
    ensures same <==> a.Contents() == b.Contents()
  {
    same := a.Equals(b);
    ha := a.HashCode();
    hb := b.HashCode();
  }
}
