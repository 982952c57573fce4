# BeanIO fixed-length field addressing and date type handling, in Dafny

This project models two pieces of BeanIO's unmarshalling engine.

- **`FixedLengthUnmarshallingContext`** (module `FixedLength`, class
  `FixedLengthUnmarshallingContext`). It holds the record being read and its
  length in encoded bytes. `SetRecordValue` installs a record and measures it
  once. `GetFieldText` resolves a field descriptor `(position, length, until)`
  to a byte offset. A negative position counts back from the end of the record.
  A non-negative position must stay below `recordLength + until`. Both pass
  through the context's repeat adjustment. The method then cuts exactly
  `length` bytes from the encoded record, decodes them, and caches the text
  under the field's name. The pure function `ExtractField` states the outcome
  of one call, and the lemmas next to it state what that outcome is: when the
  field is absent, what its text is, and when the call throws.
- **`AbstractDateTypeHandler`** (module `DateTypes`). It keeps an optional
  pattern and a leniency flag around a date-format library. The library is
  abstracted as the `DateLibrary` datatype. The model covers the handler's own
  rules:
  - empty text parses to `null`;
  - a parse must end at the end of the text with no error index;
  - a `null` date formats to `null`;
  - the default format is used when there is no pattern;
  - `SetPattern` validates the pattern first;
  - leniency is `false` by default and is passed to every parse.

Supporting modules:

- `Base`: Java's 32-bit `int` (`int32`, with `Add32` for wrap-around
  addition), `byte`, nullable references (`Option`) and results (`Result`).
- `Charsets`: an encoding is either unsupported by the runtime or a pair of
  `encode`/`decode` functions. ISO-8859-1 is given concretely, with its
  round-trip lemmas.

Java exceptions are outcomes in the model. `GetFieldText` returns
`Thrown(NullPointer)`, `Thrown(NegativeArraySize)` or `Thrown(IndexOutOfBounds)`.
The date operations return `Err(TypeConversion(..))` or `Err(IllegalArgument(..))`.

Where the doc-comments and the code disagree, the model follows the code:

- The doc-comment of `getFieldText` says it returns `null` when the record is
  shorter than the field's position. A present field that runs past the end of
  the record makes `System.arraycopy` throw (`ShortRecordThrows`).
- The same doc-comment allows `length == -1` for an unbounded field. The code
  throws from `new byte[length]` (`UnboundedFieldThrows`).
- An `UnsupportedEncodingException` is caught and printed. The record then
  measures 0 bytes and every field reads as `null`
  (`UnsupportedEncodingReadsNothing`).

## Model

| member | source | states |
|---|---|---|
| `Base.Add32` | src/org/beanio/internal/parser/format/fixedlength/FixedLengthUnmarshallingContext.java:68 | Java `int` addition: the exact sum when it fits in 32 bits, and in every case a value congruent to the sum modulo 2^32 |
| `Charsets.Latin1RoundTrip` | src/org/beanio/internal/parser/format/fixedlength/FixedLengthUnmarshallingContext.java:87-90 | decoding the ISO-8859-1 bytes of a string that ISO-8859-1 can represent gives the string back |
| `Charsets.Latin1SliceIsSubstring` | src/org/beanio/internal/parser/format/fixedlength/FixedLengthUnmarshallingContext.java:87-90 | under ISO-8859-1, decoding bytes `[i, j)` of the encoded string gives the substring `[i, j)`, so byte offsets are character offsets |
| `FixedLength.ArrayCopy` | src/org/beanio/internal/parser/format/fixedlength/FixedLengthUnmarshallingContext.java:89 | copies `length` bytes from `srcPos` into `dest` at `destPos` iff every index is in range; otherwise it signals `IndexOutOfBoundsException` and leaves `dest` unchanged |
| `FixedLength.FixedLengthUnmarshallingContext.constructor` | src/org/beanio/internal/parser/format/fixedlength/FixedLengthUnmarshallingContext.java:29-32 | a new context has no record, a record length of 0 and an empty field cache |
| `FixedLength.FixedLengthUnmarshallingContext.SetRecordValue` | src/org/beanio/internal/parser/format/fixedlength/FixedLengthUnmarshallingContext.java:35-44 | installs the record; `recordLength` becomes its encoded byte length, or 0 under an unsupported encoding; the length invariant holds afterwards |
| `FixedLength.FixedLengthUnmarshallingContext.GetRecordLength` | src/org/beanio/internal/parser/format/fixedlength/FixedLengthUnmarshallingContext.java:51-53 | returns the byte length of the installed record under the context's encoding, and 0 with no record or an unsupported encoding |
| `FixedLength.FixedLengthUnmarshallingContext.GetFieldText` | src/org/beanio/internal/parser/format/fixedlength/FixedLengthUnmarshallingContext.java:67-96 | the outcome is `ExtractField` of the current state; `record` and `recordLength` are unchanged; the cache maps `name` to the text on a non-null result and is unchanged otherwise |
| `FixedLength.AbsentExactlyWhenOutOfRange` | src/org/beanio/internal/parser/format/fixedlength/FixedLengthUnmarshallingContext.java:68-83 | under a supported encoding, with a record installed: the result is `null` iff `adjust(recordLength + position) < 0` for a negative position, or `adjust(position) >= recordLength + until` (32-bit sum) for a non-negative one; with `until <= 0` that sum is exact |
| `FixedLength.NonPositiveUntilIsExact` | src/org/beanio/internal/parser/format/fixedlength/FixedLengthUnmarshallingContext.java:68 | with `until <= 0` the bound `recordLength + until` does not wrap around |
| `FixedLength.NegativePositionIgnoresUntil` | src/org/beanio/internal/parser/format/fixedlength/FixedLengthUnmarshallingContext.java:70-76 | for a negative position the outcome is the same for every `until` |
| `FixedLength.PresentFieldIsByteSlice` | src/org/beanio/internal/parser/format/fixedlength/FixedLengthUnmarshallingContext.java:87-90 | under a supported encoding, with a record installed: non-null text is the decoding of exactly bytes `[pos, pos + length)` of the encoded record, with `0 <= pos`, `0 <= length` and `pos + length <= recordLength`; conversely a field that resolves to such a `pos` and fits is returned as that decoding |
| `FixedLength.UnboundedFieldThrows` | src/org/beanio/internal/parser/format/fixedlength/FixedLengthUnmarshallingContext.java:88 | under a supported encoding, with a record installed: a present field with a negative length, including the documented -1, throws `NegativeArraySizeException` |
| `FixedLength.ShortRecordThrows` | src/org/beanio/internal/parser/format/fixedlength/FixedLengthUnmarshallingContext.java:89 | under a supported encoding, with a record installed: a present field with a negative adjusted position, or one extending past the record's bytes, throws `IndexOutOfBoundsException` |
| `FixedLength.UnsupportedEncodingReadsNothing` | src/org/beanio/internal/parser/format/fixedlength/FixedLengthUnmarshallingContext.java:86-95 | under an unsupported encoding the record measures 0 bytes and every field reads as `null` |
| `FixedLength.Latin1FieldIsSubstring` | src/org/beanio/internal/parser/format/fixedlength/FixedLengthUnmarshallingContext.java:87-90 | under ISO-8859-1, non-null field text is the substring of the record from the resolved position, `length` characters long |
| `FixedLength.ExampleRecord` | src/org/beanio/internal/parser/format/fixedlength/FixedLengthUnmarshallingContext.java:67-96 | on record "ABC123  ": 3 bytes at position 3 give "123"; 2 bytes at position -2 give "  "; 2 bytes at position 7 throw |
| `DateTypes.AbstractDateTypeHandler.constructor` | src/org/beanio/types/AbstractDateTypeHandler.java:36-42 | a new handler has no pattern and is not lenient |
| `DateTypes.AbstractDateTypeHandler.WithPattern` | src/org/beanio/types/AbstractDateTypeHandler.java:48-50 | stores the given pattern as it is, without validating it; leniency stays false |
| `DateTypes.AbstractDateTypeHandler.CreateDateFormat` | src/org/beanio/types/AbstractDateTypeHandler.java:86-93 | the default format is chosen iff no pattern is set; otherwise the format is built from the pattern and fails with `IllegalArgumentException` iff the library rejects it |
| `DateTypes.AbstractDateTypeHandler.ParseDate` | src/org/beanio/types/AbstractDateTypeHandler.java:58-71 | a non-null date comes only from non-empty text; once a format is built, every failure is the type-conversion error "Invalid date" |
| `DateTypes.AbstractDateTypeHandler.FormatDate` | src/org/beanio/types/AbstractDateTypeHandler.java:78-80 | `null` formats to `null`; a date formats iff a format can be built, to the library's rendering with that format |
| `DateTypes.AbstractDateTypeHandler.SetPattern` | src/org/beanio/types/AbstractDateTypeHandler.java:107-128 | succeeds iff the pattern is null or valid; on success `GetPattern` reports it and a format can be built; on failure the pattern is unchanged and the error names it |
| `DateTypes.AbstractDateTypeHandler.SetLenient` | src/org/beanio/types/AbstractDateTypeHandler.java:134-144 | `IsLenient` reports the value set; the pattern is unchanged |
| `DateTypes.EmptyTextIsNull` | src/org/beanio/types/AbstractDateTypeHandler.java:59-60 | empty text parses to `null` for every library, so the format is not consulted |
| `DateTypes.ParseSucceedsOnlyOnWholeText` | src/org/beanio/types/AbstractDateTypeHandler.java:62-70 | a parse of non-empty text succeeds iff the library reports no error index and an index at the end of the text; the date returned is the library's |
| `DateTypes.TrailingTextRejected` | src/org/beanio/types/AbstractDateTypeHandler.java:67-69 | a parse that stops before the end of the text is rejected with "Invalid date", even with no error index |
| `DateTypes.ParseUsesHandlerLeniency` | src/org/beanio/types/AbstractDateTypeHandler.java:62-66 | the result depends on the library only through one parse, made with the chosen format and the handler's own leniency |
| `DateTypes.UnvalidatedPatternFailsOnUse` | src/org/beanio/types/AbstractDateTypeHandler.java:48-50 | an invalid pattern given to the constructor surfaces as `IllegalArgumentException` on the first parse of non-empty text or format of a date |

## Left out

- `Marshaller` (src/org/beanio/Marshaller.java) is an interface with no behaviour. The record-ordering and occurrence checks its comments describe are implemented elsewhere, and those files are not part of this model.
- Real character sets are not modelled. An encoding is any pair of `encode`/`decode` functions, and only ISO-8859-1 is given concretely. A Dafny `char` is a Unicode scalar value, while a Java `char` is a UTF-16 code unit. A character outside the Basic Multilingual Plane is therefore one Dafny `char` but two Java `char`s. Under ISO-8859-1 both give one `?` byte. The two counts differ only where a text length is compared: `ParseDate`'s end-of-text test, through the abstract library's index. A lone surrogate cannot be represented in Dafny (Java writes `?` for it).
- Java's `byte` is signed; the model uses the unsigned value 0..255. Nothing in the modelled code looks at the sign.
- The `printStackTrace` calls in the `UnsupportedEncodingException` handlers are logging only. The model keeps their observable outcome: record length 0, and `null` field text.
- FixedLength.FixedLengthUnmarshallingContext.SetRecordValue: takes a non-null `String` record. A non-`String` value would throw `ClassCastException` at the cast on line 36. With `null`, `record.getBytes` throws before the `value == null` test on line 43 is reached, leaving `record` null and the previous `recordLength` in place. Neither outcome is modelled.
- FixedLength.FixedLengthUnmarshallingContext.SetRecordValue: requires the encoded record to fit in a Java array (at most 2^31 - 1 bytes). Java would fail with an out-of-memory error first.
- `getAdjustedFieldPosition`, `setFieldText` and `getEncoding` are inherited from `UnmarshallingContext`, which is not part of this model. The adjustment is the `adjust` parameter of `GetFieldText`, an arbitrary `int -> int` function. The field-text cache is the `fieldText` map, and `setFieldText(name, text)` is a map update. The encoding is fixed when the context is constructed.
- `SimpleDateFormat`, `DateFormat.getDateTimeInstance` and `java.util.Date` are abstracted as `DateLibrary`: a pattern check, a parser and a formatter. The pattern language, locale defaults and calendar arithmetic are not modelled, and neither is a format/parse round trip. `Date` is its millisecond count.
- DateTypes.AbstractDateTypeHandler.ParseDate: text is a non-null string. Java's `parseDate(null)` would throw `NullPointerException` inside the library.
- `createDateFormat` returns a new `DateFormat` object on each call, and `parseDate` sets leniency on that object. The model describes the format as a value and passes leniency to the parse call, so object identity is not modelled.
- `getPattern` and `isLenient` are plain getters (`GetPattern`, `IsLenient`). Their contracts are given by the `SetPattern` and `SetLenient` rows.
- `Debuggable` (imported by src/org/beanio/Marshaller.java) is not part of this model.
