# A verified model of Avian's `java.lang.String`

This project models the immutable string value of the Avian class library
(`classpath/java/lang/String.java`) in Dafny and proves what its operations
compute.

A string holds one storage field. It is either a `char[]` of UTF-16 code
units (`Units.Storage.Wide`) or a compact `byte[]` (`Units.Storage.Compact`),
whose bytes `charAt` widens to `char` with sign extension. The only mutable
state is the lazily computed `hashCode` cache, so `String` is a Dafny class
with a `const data` and a `var hashCode`.

The accessors and most operations read the units through `length()` and
`charAt`:
- comparison, equality and hashing;
- the search family;
- case conversion, and the scans of `trim`, `replace(target, replacement)`
  and `infuse`.

Others read the array itself:
- both forms of `substring` hand the storage to the private constructor,
  which copies a `char[]` range with `System.arraycopy` or decodes a `byte[]`
  range with `Utf8.decode`;
- `getBytes` and `getChars` copy straight from the `char[]` or `byte[]`;
- the byte branch of `replace(char, char)` reads the `byte[]`;
- `getBytes(String)` tests which array is present;
- the constructors work on their argument arrays.

`trim`, the prefix, suffix and region tests, `replace(target, replacement)`
and `infuse` take their pieces through `substring`. On `byte[]` storage they
therefore see the decoder's units, not the units `charAt` presents.

Modules:

- `Units`: code units, Java `byte`/`int` ranges and casts, the `Storage`
  variants, the `Outcome` of an operation that may throw, the opaque
  capabilities, and the private constructor `String(Object, offset, length,
  copy)` as the function `Build`.
- `Ordering`: the hash fold and ordinal comparison, with their laws.
- `Search`: `indexOf`/`lastIndexOf` as specification functions and as the
  scanning loops.
- `Transform`: the bounds `trim` keeps, `replace` on units and bytes,
  literal replacement, `infuse`, and the units of the high-byte constructor.
- `Lang`: the class `String`, whose methods follow the Java methods one for
  one and are proved against the functions above.

Opaque collaborators are parameters:
- `Character.isWhitespace/toLowerCase/toUpperCase` are a `Character` record
  of functions;
- `Utf8.test/decode/encode` and `Iso88591.encode` are a `Codecs` record.

Results on `char[]` storage are stated exactly: the storage a constructor
installs, copied or not, is given as the value of `Units.Build`. Results that
pass through the UTF-8 decoder are stated in terms of the decoder's answer.

Exceptions are the `Thrown` case of `Outcome`:
- `StringIndexOutOfBounds`, `IndexOutOfBounds` and `ArrayIndexOutOfBounds`
  stand for the three bounds failures;
- `NegativeArraySize` stands for `new char[n]` with `n < 0`;
- `UnableToParse` is the `RuntimeException` thrown when the decoder gives up;
- `StackOverflow` stands for the re-entry of the private constructor that
  never ends (see below);
- `UnsupportedEncoding` and `UnsupportedOperation` are the two remaining
  exceptions.

The shared `""` that `substring` and `trim` return is passed in as `empty`.

### Behaviour as written

The model reproduces these behaviours of the code as they are:

- `charAt` guards with `index > length`. `index == length` gets past the
  guard and fails on the array access (`ArrayIndexOutOfBounds`).
- Compact bytes are read with a signed cast. Bytes 0x80..0xFF read as units
  0xFF80..0xFFFF, in `charAt` and in `getChars` alike.
- `substring(start)` copies from offset 0. It yields the first
  `length - start` units, so `endsWith(s)` on `char[]` storage answers
  exactly as `startsWith(s)` does (`Lang.String.EndsWith`).
- `startsWith(s, start)` uses `s.length()` as the end index. On `char[]`
  storage:
  - only `start == 0` can answer true;
  - `0 < start <= |s|` answers false;
  - any other admitted `start` throws.
- The byte branch of `replace(char, char)` compares against `(byte) oldChar`,
  so only the low 8 bits of `oldChar` matter there
  (`Transform.CompactReplaceLowBitsOnly`).
- `trim` returns `""` whenever its start index is not below its end index.
  That covers both an all-whitespace string and an empty one.
- The high-byte constructor builds each unit as
  `(b & 0xFF) | (highByte << 8)` cut to 16 bits. It throws
  `NegativeArraySize` for a negative `length` that passes its bounds check.
- `indexOf(s, start)` with an empty `s` returns `start` unchanged. With a
  negative `start` and a non-empty `s` it throws from `charAt(start)`, or
  returns -1 when the loop does not run.
- A non-copying constructor without a forced copy keeps the whole source
  array, whatever sub-range was asked for (`Units.BuildAliasesWhole`).
- When the decoder gives up, the message is built with `new String(data,
  offset, length, false)`, which re-enters the private constructor. If
  `Utf8.test(data)` holds, that call is forced to copy and decodes the same
  range. The decode fails again, and the re-entry never ends. The model
  reports this as `StackOverflow`, and reports `UnableToParse` only when
  `Utf8.test(data)` is false (`Units.BuildDecodeFailure`).
- The charset-name constructor accepts `UTF-8` and `ISO-8859-1`, while
  `getBytes(String)` also accepts `LATIN-1`.

One discrepancy is resolved on purpose. The private constructor
(`String.java:106-135`) reads `length()` of the object under construction,
whose `data` field is not yet assigned. `length()` (`String.java:144-150`)
sees a null that is not a `char[]`, and takes `((byte[]) null).length`. As
written, every call through the private constructor would therefore throw
`NullPointerException`. That includes `String()`, `String(char[])`,
`String(byte[])`, `substring`, `concat` and the case conversions. No string
could be built through these constructors. Only the high-byte constructor
(`String.java:91-104`), which does not enter the private constructor, would
build strings. It makes the same check against
the argument array (`String.java:92`), and the rest of the code relies on
that meaning. `Units.Build` therefore checks `offset` and `length` against the
argument storage, and the model has no `NullPointerException` on this path.

## Model

| member | source | states |
|---|---|---|
| Units.ByteCharRoundTrip | classpath/java/lang/String.java:515-527 | `(byte)` undoes the signed `(char)` cast of a compact byte; bytes read below 0x80 exactly when non-negative; negative bytes read as 0xFF80..0xFFFF |
| Units.CompactWideAgree | classpath/java/lang/String.java:142-151 | compact storage presents the same length and units as wide storage holding the sign-extended bytes |
| Units.BuildWideCopy | classpath/java/lang/String.java:106-135 | a copying construction from a `char[]` succeeds exactly on `0 <= offset`, `0 <= length`, `offset + length <= size`, and holds exactly the units of that range |
| Units.BuildAliasesWhole | classpath/java/lang/String.java:106-135 | without a copy (and no copy forced by `Utf8.test`) the constructor keeps the whole source, not the requested range |
| Units.BuildDecodeFailure | classpath/java/lang/String.java:121-128 | when the decoder gives up on a range it is asked to copy, the construction throws `UnableToParse` if `Utf8.test` is false; otherwise the message's non-copying construction re-enters without end (`StackOverflow`) |
| Units.SubstringUnitsWide | classpath/java/lang/String.java:390-404 | on `char[]` storage `substring(start, end)` succeeds exactly when `0 <= start <= end <= length` and yields units `start..end-1`, otherwise `StringIndexOutOfBounds` |
| Ordering.PolyIsPowerSum | classpath/java/lang/String.java:153-162 | the unbounded Horner fold `h*31 + u` over the units equals the power sum `sum u[i]*31^(n-1-i)` |
| Ordering.HashIsWrappedPoly | classpath/java/lang/String.java:153-162 | the wrapping 32-bit hash fold equals the unbounded Horner fold, and so the power sum `sum u[i]*31^(n-1-i)`, reduced to a signed 32-bit value |
| Ordering.CompareFirstDifference | classpath/java/lang/String.java:190-206 | after a common prefix of length k, the comparison is the difference of the units at k, or the length difference when either string ends at k |
| Ordering.CompareZeroIffEqual | classpath/java/lang/String.java:164-175 | the comparison is zero exactly on equal unit sequences, so `equals` is content equality |
| Ordering.CompareAntisymmetric | classpath/java/lang/String.java:190-206 | swapping the operands negates the comparison |
| Ordering.CompareTransitive | classpath/java/lang/String.java:190-206 | the ordering is transitive |
| Ordering.CompareIgnoreCaseZero | classpath/java/lang/String.java:208-226 | the case-insensitive comparison is zero exactly when the lower-cased sequences agree, and it is antisymmetric |
| Search.FindFrom | classpath/java/lang/String.java:309-326 | a found index lies between `start` and `length - s.length()` |
| Search.FindFromIsFirst | classpath/java/lang/String.java:309-326 | the search from `i` returns the least index at or after `i` where `s` occurs entirely within the string, or -1 when there is none |
| Search.FindLastIsLast | classpath/java/lang/String.java:333-350 | the backward search returns the greatest occurrence at or before its bound, or -1 when there is none |
| Search.UnitFromIsFirst | classpath/java/lang/String.java:289-298 | the unit search returns the least index at or after `start` holding the unit, or -1 |
| Search.UnitFromIsFind | classpath/java/lang/String.java:289-298 | searching for one unit is searching for the one-unit string |
| Search.UnitBeforeIsLast | classpath/java/lang/String.java:636-648 | the backward unit search returns the greatest index at or before its bound holding the unit, or -1 |
| Search.IndexOfUnitScan | classpath/java/lang/String.java:289-298 | the loop of `indexOf(int, int)` returns the forward unit search |
| Search.MatchLength | classpath/java/lang/String.java:313-320 | the inner loop stops at the first mismatch and reaches `s.length()` exactly when `s` occurs at `i` |
| Search.IndexOfScan | classpath/java/lang/String.java:309-326 | the loops of `indexOf(String, int)` return the first occurrence at or after `start`, never reading past `length` |
| Search.LastIndexOfScan | classpath/java/lang/String.java:333-350 | the loops of `lastIndexOf(String, int)` return the last occurrence at or before `min(length - s.length(), lastIndex)` |
| Search.LastIndexOfUnitScan | classpath/java/lang/String.java:636-648 | the loop returns the last occurrence at or before `lastIndex` clamped to `length - 1` |
| Transform.FirstNonSpaceIsFirst | classpath/java/lang/String.java:228-237 | the first scan of `trim` finds the least non-whitespace index, or -1 when there is none |
| Transform.LastNonSpaceEndIsLast | classpath/java/lang/String.java:239-246 | the second scan finds one past the greatest non-whitespace index, or -1 |
| Transform.TrimBounds | classpath/java/lang/String.java:228-253 | either both bounds are -1 and every unit is whitespace, or `0 <= start < end <= length` with only whitespace outside and non-whitespace at both ends |
| Transform.TrimScan | classpath/java/lang/String.java:228-246 | the two loops of `trim` compute those bounds |
| Transform.ReplaceUnitsEffect | classpath/java/lang/String.java:352-363 | after `replace(old, new)` with `old != new` no `old` remains, every other unit is kept, and a second replacement changes nothing |
| Transform.CompactReplaceAscii | classpath/java/lang/String.java:364-377 | for ASCII `old` and `new`, the byte branch presents the same units as the char branch would |
| Transform.CompactReplaceLowBitsOnly | classpath/java/lang/String.java:367-368 | replacing U+0141 in compact "A" rewrites the 'A', which the char branch leaves alone |
| Transform.ReplaceAllFirst | classpath/java/lang/String.java:568-571 | one round of the replace loop: no occurrence leaves the units unchanged; otherwise the units before the first occurrence, then the replacement, then the replacement of the rest |
| Transform.ReplaceAllSelf | classpath/java/lang/String.java:554-576 | replacing a target by itself returns the original units |
| Transform.ReplaceScan | classpath/java/lang/String.java:564-575 | the `while` loop of `replace(target, replacement)` yields the non-overlapping left-to-right replacement, and `unhandled` shrinks every round |
| Transform.InfuseLength | classpath/java/lang/String.java:578-588 | `infuse` yields `(n+1)*with.length() + n` units and ends with `with` |
| Transform.InfuseBlock | classpath/java/lang/String.java:578-588 | block k of the result is `with` followed by unit k |
| Transform.InfuseExample | classpath/java/lang/String.java:554-557 | `"a".replace("", "-")` is `"-a-"` |
| Transform.InfuseScan | classpath/java/lang/String.java:578-588 | the loop of `infuse` yields `with`, u0, `with`, u1, ..., `with` |
| Transform.HighByteUnitSplit | classpath/java/lang/String.java:97-100 | the unit's low byte is the source byte read as unsigned, and its high byte is the low 8 bits of `highByte` |
| Lang.SubstringFromIsPrefix | classpath/java/lang/String.java:380-388 | on `char[]` storage `substring(start)` yields the first `length - start` units |
| Lang.RegionMatchesWide | classpath/java/lang/String.java:656-666 | on `char[]` storage `regionMatches` throws exactly when either region leaves its string, and otherwise compares the two slices, lower-cased when asked |
| Lang.CopyEach | classpath/java/lang/String.java:449-453 | the copying loop writes element i at `dstOffset + i` until the first write outside `dst`, which throws; nothing else in `dst` changes |
| Lang.ArrayCopy | classpath/java/lang/String.java:454-457 | `System.arraycopy` checks every bound first, writes nothing on failure, and on success writes exactly the range |
| Lang.String.Length | classpath/java/lang/String.java:142-151 | `length()` is the number of units `charAt` presents |
| Lang.String.CharAt | classpath/java/lang/String.java:515-527 | in range it returns unit `index`; a negative index or one past `length` throws `StringIndexOutOfBounds`, and `index == length` fails on the array access |
| Lang.String.IsEmpty | classpath/java/lang/String.java:668-671 | true exactly for the empty unit sequence |
| Lang.String.Create | classpath/java/lang/String.java:106-135 | the private constructor: bounds checked against the argument, `IndexOutOfBounds` outside them; the whole argument kept unless a copy is asked for or forced by `Utf8.test`; a copied `char[]` range (`NegativeArraySize` for a negative length); a decoded `byte[]` range, or `UnableToParse`/`StackOverflow` when decoding fails; the result is a fresh string holding exactly that storage |
| Lang.String.Empty | classpath/java/lang/String.java:42-44 | `String()` is a fresh string holding an empty `char[]` |
| Lang.String.FromChars | classpath/java/lang/String.java:46-56 | the installed storage is exactly what `Build` gives for the array, copied or not; a copying construction succeeds exactly on an in-bounds range of non-negative length and holds its units; a non-copying one not forced by `Utf8.test` holds the whole array; an out-of-bounds range throws `IndexOutOfBounds` |
| Lang.String.FromBytes | classpath/java/lang/String.java:69-79 | the construction from a `byte[]` installs what `Build` gives or throws what it throws |
| Lang.String.FromBytesNamed | classpath/java/lang/String.java:58-67 | the bytes are decoded first (its exception wins); then a charset other than UTF-8 or ISO-8859-1, ignoring case, throws `UnsupportedEncoding` (also `String(byte[], String)`, :85-89) |
| Lang.String.CopyOf | classpath/java/lang/String.java:81-83 | `String(s)` is a fresh `char[]` copy of the units of `s` |
| Lang.String.WithHighByte | classpath/java/lang/String.java:91-104 | out of bounds throws `IndexOutOfBounds`, a negative length `NegativeArraySize`; otherwise `length` units whose low byte is the source byte and whose high byte is `highByte`'s low 8 bits |
| Lang.String.HashCode | classpath/java/lang/String.java:153-162 | returns the hash fold of the units and caches it; a non-zero cache is returned unchanged |
| Lang.EqualStringsHashAlike | classpath/java/lang/String.java:153-175 | strings `equals` relates report equal `hashCode`s |
| Lang.String.CompareTo | classpath/java/lang/String.java:190-206 | the loop returns the ordinal comparison of the two unit sequences (0 for the same object) |
| Lang.String.CompareToIgnoreCase | classpath/java/lang/String.java:208-226 | the loop returns the comparison of the lower-cased sequences |
| Lang.String.Equals | classpath/java/lang/String.java:164-175 | true exactly when the other object is a string with the same units |
| Lang.String.EqualsIgnoreCase | classpath/java/lang/String.java:177-188 | true exactly when the other string's units lower-case to the same units |
| Lang.String.IndexOfUnit | classpath/java/lang/String.java:285-298 | a negative start throws; otherwise the least index at or after `start` holding the unit, or -1 |
| Lang.String.IndexOf | classpath/java/lang/String.java:305-326 | an empty `s` returns `start`; a negative `start` throws or gives -1 as the loop bound decides; otherwise the first occurrence at or after `start` |
| Lang.String.Contains | classpath/java/lang/String.java:673-675 | true exactly when the argument occurs somewhere in the string |
| Lang.String.LastIndexOf | classpath/java/lang/String.java:328-350 | an empty `s` returns `lastIndex`; otherwise the last occurrence at or before `min(length - s.length(), lastIndex)` |
| Lang.String.LastIndexOfUnit | classpath/java/lang/String.java:636-648 | the last index at or before `lastIndex` clamped to `length - 1` holding the unit, or -1 (also `lastIndexOf(int)`, :300-303) |
| Lang.String.Substring | classpath/java/lang/String.java:390-404 | throws outside `0 <= start <= end <= length`; the full range returns the same object, an empty range the shared empty string, and anything else, on either storage, a fresh string of the range's units |
| Lang.String.SubstringFrom | classpath/java/lang/String.java:380-388 | `start == 0` returns the same object; outside `0..length` it throws; otherwise, on either storage, a fresh copy of the first `length - start` units |
| Lang.String.StartsWith | classpath/java/lang/String.java:406-413 | on `char[]` storage, true exactly when `s` is a prefix |
| Lang.String.StartsWithAt | classpath/java/lang/String.java:415-422 | the test takes `substring(start, s.length())`; on `char[]` storage only `start == 0` can succeed, `0 < start <= s.length()` gives false, and other starts throw |
| Lang.String.EndsWith | classpath/java/lang/String.java:424-431 | the test takes `substring(length - s.length())`; on `char[]` storage it is the prefix test |
| Lang.String.RegionMatches | classpath/java/lang/String.java:650-666 | both regions are cut by `substring` (first exception wins) and compared exactly or ignoring case |
| Lang.String.Trim | classpath/java/lang/String.java:228-253 | `""` when the start bound is not below the end bound; otherwise the outcome and units of `substring(start, end)`, which is this same object when nothing is stripped and a fresh string otherwise; on `char[]` storage exactly the units between the bounds |
| Lang.TrimUnitsWide | classpath/java/lang/String.java:228-253 | on `char[]` storage the outcome of `trim()` always succeeds and holds exactly the units between the first and one past the last non-whitespace unit |
| Lang.String.Recase | classpath/java/lang/String.java:255-283 | the result presents the mapped units; it is the same object when every unit is fixed by the mapping, otherwise a fresh `char[]` string |
| Lang.String.ToLowerCase | classpath/java/lang/String.java:255-268 | the lower-cased units; the same object when nothing changes |
| Lang.String.ToUpperCase | classpath/java/lang/String.java:270-283 | the upper-cased units; the same object when nothing changes |
| Lang.String.ToLowerCaseIn | classpath/java/lang/String.java:693-699 | English lower-cases, returning this same object when no unit changes; any other locale throws `UnsupportedOperation` |
| Lang.String.ToUpperCaseIn | classpath/java/lang/String.java:685-691 | English upper-cases, returning this same object when no unit changes; any other locale throws `UnsupportedOperation` |
| Lang.String.ReplaceUnit | classpath/java/lang/String.java:352-378 | on `char[]` storage every `oldChar` becomes `newChar`; on `byte[]` storage every byte equal to `(byte) oldChar` becomes `(byte) newChar`, and the new bytes go through the non-copying constructor, which decodes them when `Utf8.test` holds |
| Lang.String.Replace | classpath/java/lang/String.java:554-576 | an empty target gives `infuse`; otherwise the non-overlapping left-to-right replacement |
| Lang.String.InfuseWith | classpath/java/lang/String.java:578-588 | the units interleaved with `with` before each and once at the end |
| Lang.String.Concat | classpath/java/lang/String.java:433-439 | the units of both operands; the same object when the argument is empty |
| Lang.String.GetBytes | classpath/java/lang/String.java:441-458 | a bad source range throws with `dst` unchanged; `char[]` storage writes the low 8 bits of each unit until a write falls outside `dst`; `byte[]` storage writes the bytes all or nothing; no other element changes |
| Lang.String.GetChars | classpath/java/lang/String.java:489-506 | a bad source range throws with `dst` unchanged; `char[]` storage copies all or nothing; `byte[]` storage writes sign-extended bytes until a write falls outside `dst` |
| Lang.String.GetBytesIn | classpath/java/lang/String.java:469-487 | compact storage is copied out; otherwise an exception from trimming the name passes through, and the trimmed upper-cased name selects the UTF-8 encoder, the ISO-8859-1 encoder (also for LATIN-1), or throws `UnsupportedEncoding`, whichever storage the name has |
| Lang.String.EncodingName | classpath/java/lang/String.java:478 | the outcome of `trim()` on the format name, upper-cased when it succeeds; on `char[]` storage always the trimmed, upper-cased units |
| Lang.String.CopyOut | classpath/java/lang/String.java:473-477 | compact storage is copied into a fresh array of its bytes |
| Lang.String.ToCharArray | classpath/java/lang/String.java:508-513 | a fresh array holding exactly the units |

## Left out

- The UTF-8 and ISO-8859-1 codecs (`avian.Utf8`, `avian.Iso88591`) are not part of this model. They are parameters, and results that pass through them are stated in terms of what they return.
- `Character.isWhitespace`, `toLowerCase` and `toUpperCase` are parameters and are not specified, so properties such as "lower-casing twice changes nothing" are not claimed.
- Regular-expression operations (`split`, `matches`, `replaceFirst`, `replaceAll`) delegate to `java.util.regex` and are not modelled.
- `valueOf` delegates to other classes' formatters, `intern` is native, and `codePointAt`/`codePointCount` delegate to `Character`; none is modelled.
- `CASE_INSENSITIVE_ORDER`, `Serializable`, `toString` (returns `this`) and `subSequence` are not modelled.
- `getBytes()` is not modelled. It passes the literal "UTF-8" through `getBytes(String)`, whose answer then depends on the real `Character.toUpperCase`.
- Exception messages are not modelled; an exception is represented by its class only.
- The racy, unsynchronised hash cache is modelled sequentially.
- `System.arraycopy` is modelled as checking every bound first and throwing `IndexOutOfBounds`. The model does not distinguish its exact exception subclass.
- Java `int` overflow of `offset + length`, `srcOffset + srcLength` and `s.length() + start` in the bounds checks is not modelled; the sums are exact.
- Lang.String.Replace: intermediate `substring` results are taken on units, not passed through the decoder again, so on `byte[]` storage the result is stated for the units `charAt` presents.
- Lang.String.InfuseWith: the one-unit `substring(i, i + 1)` pieces are taken on units, not through the decoder, for the same reason.
- `StringBuilder` results (`replace`, `infuse`, `concat`) are modelled as fresh strings with `char[]` storage; `StringBuilder` itself is not part of this model.
- Lang.String.Recase: the non-copying constructor on the fresh buffer is modelled as installing it directly; `Utf8.test` on a `char[]` could only force a copy of identical units.
- Lang.String.ReplaceUnit: on `byte[]` storage the result is stated through the decoder's answer, not as concrete units.
- Lang.String.Substring: on `byte[]` storage the result is stated through the decoder's answer, not as concrete units.
- Lang.String.SubstringFrom: on `byte[]` storage the result is stated through the decoder's answer, not as concrete units.
- Lang.String.StartsWith: on `byte[]` storage the result is stated through the decoder's answer, not as concrete units.
- Lang.String.StartsWithAt: on `byte[]` storage the result is stated through the decoder's answer, not as concrete units.
- Lang.String.EndsWith: on `byte[]` storage the result is stated through the decoder's answer, not as concrete units.
- Lang.String.Trim: on `byte[]` storage the result is stated through the decoder's answer, not as concrete units.
- Lang.String.RegionMatches: on `byte[]` storage the result is stated through the decoder's answer, not as concrete units.
- Lang.String.Equals: the argument is a possibly null `String`, so the `instanceof` test failing for an object of another class (answering false) is not represented.
- The aliasing of a caller's array by the non-copying constructors is not captured: storage is a value, so a later write to that array is not visible in the string.
- The shared `""` object and the string literals for encoding names are parameters or fresh objects; `intern`ed identity is not modelled.
