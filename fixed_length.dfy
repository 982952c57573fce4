/** Field addressing for fixed-length records on the reading side: the
    context holds one record, measures it once in encoded bytes, and cuts
    each field out of it by byte position. */
module FixedLength {
  import opened Base
  import opened Charsets

  /** The Java exceptions `getFieldText` lets escape. */
  datatype Fault =
    | NullPointer        // no record was ever installed
    | NegativeArraySize  // `new byte[length]` with a negative length
    | IndexOutOfBounds   // `System.arraycopy` outside the record's bytes

  /** What `getFieldText` does: returns field text or `null`, or throws. */
  datatype Outcome = Returned(text: Option<string>) | Thrown(fault: Fault)

  /** The byte length `setRecordValue` stores for a record: 0 when there is
      no record or the encoding is unsupported. */
  function ByteLength(cs: Charset, record: Option<string>): nat
  {
    match record
    case None => 0
    case Some(s) =>
      match cs
      case Unsupported => 0
      case Supported(encode, _) => |encode(s)|
  }

  /** The byte offset a field descriptor resolves to in a record of
      `recordLength` bytes, or `None` when the field is absent. A negative
      position counts back from the end of the record; a non-negative one must
      stay below `recordLength + until`. Both pass through `adjust`, the
      repeat-aware adjustment of the enclosing context. */
  function ResolvePosition(recordLength: int32, adjust: int32 -> int32,
                           position: int32, until: int32): Option<int32>
    requires 0 <= recordLength
  {
    if position < 0 then
      var p := adjust(recordLength + position);
      if p < 0 then None else Some(p)
    else
      var p := adjust(position);
      if p >= Add32(recordLength, until) then None else Some(p)
  }

  /** The outcome of `getFieldText(name, position, length, until)` on a
      context holding `record`, whose stored length is `recordLength`. */
  function ExtractField(record: Option<string>, recordLength: int32, cs: Charset,
                        adjust: int32 -> int32,
                        position: int32, length: int32, until: int32): Outcome
    requires 0 <= recordLength
  {
    match ResolvePosition(recordLength, adjust, position, until)
    case None => Returned(None)
    case Some(pos) =>
      if record.None? then Thrown(NullPointer)
      else
        match cs
        case Unsupported => Returned(None)
        case Supported(encode, decode) =>
          var src := encode(record.value);
          if length < 0 then Thrown(NegativeArraySize)
          else if pos < 0 || pos + length > |src| then Thrown(IndexOutOfBounds)
          else Returned(Some(decode(src[pos..pos + length])))
  }

  /** `System.arraycopy(src, srcPos, dest, destPos, length)` from a byte
      sequence: copies when every index is in range, and otherwise reports
      the `IndexOutOfBoundsException` without touching `dest`. */
  method ArrayCopy(src: seq<byte>, srcPos: int, dest: array<byte>, destPos: int, length: int)
    returns (ok: bool)
    modifies dest
    ensures ok <==> 0 <= srcPos && 0 <= destPos && 0 <= length
                    && srcPos + length <= |src| && destPos + length <= dest.Length
    ensures ok ==> dest[..] == old(dest[..destPos]) + src[srcPos..srcPos + length]
                               + old(dest[destPos + length..])
    ensures !ok ==> dest[..] == old(dest[..])
  {
    ok := 0 <= srcPos && 0 <= destPos && 0 <= length
          && srcPos + length <= |src| && destPos + length <= dest.Length;
    if ok {
      forall k | 0 <= k < length {
        dest[destPos + k] := src[srcPos + k];
      }
      assert dest[..] == old(dest[..destPos]) + src[srcPos..srcPos + length]
                         + old(dest[destPos + length..]);
    }
  }

  /** A field is absent (`null`) exactly when its adjusted position falls
      before the start of the record (negative position) or at or beyond
      `recordLength + until`, computed in 32-bit arithmetic (non-negative
      position). */
  lemma AbsentExactlyWhenOutOfRange(record: string, cs: Charset, adjust: int32 -> int32,
                                    position: int32, length: int32, until: int32)
    requires cs.Supported? && |cs.encode(record)| <= MaxInt
    ensures var rl := |cs.encode(record)|;
            ExtractField(Some(record), rl, cs, adjust, position, length, until) == Returned(None)
            <==> if position < 0 then adjust(rl + position) < 0
                 else adjust(position) >= Add32(rl, until)
    ensures var rl := |cs.encode(record)|;
            0 <= position && until <= 0 ==>
              (ExtractField(Some(record), rl, cs, adjust, position, length, until) == Returned(None)
               <==> adjust(position) >= rl + until)
  {
    if until <= 0 {
      NonPositiveUntilIsExact(|cs.encode(record)|, until);
    }
  }

  /** The bound `recordLength + until` cannot wrap around when `until` is
      not positive, as the descriptor's "offset of the field count" is meant. */
  lemma NonPositiveUntilIsExact(recordLength: int32, until: int32)
    requires 0 <= recordLength && until <= 0
    ensures Add32(recordLength, until) == recordLength + until
  {
  }

  /** A negative position ignores `until`. */
  lemma NegativePositionIgnoresUntil(record: Option<string>, recordLength: int32, cs: Charset,
                                     adjust: int32 -> int32, position: int32, length: int32,
                                     until1: int32, until2: int32)
    requires 0 <= recordLength && position < 0
    ensures ExtractField(record, recordLength, cs, adjust, position, length, until1)
         == ExtractField(record, recordLength, cs, adjust, position, length, until2)
  {
  }

  /** Field text is the decoding of exactly `length` bytes of the encoded
      record, starting at the resolved position, and lies inside the record;
      conversely, every field that resolves and fits inside the record is
      read, never thrown. */
  lemma PresentFieldIsByteSlice(record: string, cs: Charset, adjust: int32 -> int32,
                                position: int32, length: int32, until: int32)
    requires cs.Supported? && |cs.encode(record)| <= MaxInt
    ensures var rl := |cs.encode(record)|;
            var r := ExtractField(Some(record), rl, cs, adjust, position, length, until);
            r.Returned? && r.text.Some? ==>
              var pos := ResolvePosition(rl, adjust, position, until);
              && pos.Some?
              && 0 <= pos.value && 0 <= length && pos.value + length <= rl
              && r.text.value == cs.decode(cs.encode(record)[pos.value..pos.value + length])
    ensures var rl := |cs.encode(record)|;
            var pos := ResolvePosition(rl, adjust, position, until);
            pos.Some? && 0 <= pos.value && 0 <= length && pos.value + length <= rl ==>
              ExtractField(Some(record), rl, cs, adjust, position, length, until)
              == Returned(Some(cs.decode(cs.encode(record)[pos.value..pos.value + length])))
  {
  }

  /** A field declared unbounded (length -1), or with any negative length,
      makes `new byte[length]` throw once the field is present. */
  lemma UnboundedFieldThrows(record: string, cs: Charset, adjust: int32 -> int32,
                             position: int32, length: int32, until: int32)
    requires cs.Supported? && |cs.encode(record)| <= MaxInt
    requires length < 0
    requires ResolvePosition(|cs.encode(record)|, adjust, position, until).Some?
    ensures ExtractField(Some(record), |cs.encode(record)|, cs, adjust, position, length, until)
         == Thrown(NegativeArraySize)
  {
  }

  /** A present field that does not fit inside the record's bytes makes
      `System.arraycopy` throw: the record is too short, or the adjusted
      position is negative. */
  lemma ShortRecordThrows(record: string, cs: Charset, adjust: int32 -> int32,
                          position: int32, length: int32, until: int32)
    requires cs.Supported? && |cs.encode(record)| <= MaxInt
    requires 0 <= length
    requires var pos := ResolvePosition(|cs.encode(record)|, adjust, position, until);
             pos.Some? && (pos.value < 0 || pos.value + length > |cs.encode(record)|)
    ensures ExtractField(Some(record), |cs.encode(record)|, cs, adjust, position, length, until)
         == Thrown(IndexOutOfBounds)
  {
  }

  /** With an encoding the runtime does not support, the record measures 0
      bytes and no field is ever read. */
  lemma UnsupportedEncodingReadsNothing(record: Option<string>, adjust: int32 -> int32,
                                        position: int32, length: int32, until: int32)
    requires record.Some?
    ensures ByteLength(Unsupported, record) == 0
    ensures ExtractField(record, 0, Unsupported, adjust, position, length, until) == Returned(None)
  {
  }

  /** Under ISO-8859-1, a single-byte encoding, field text is the substring
      of the record between the resolved position and `length` characters on. */
  lemma {:induction false} Latin1FieldIsSubstring(record: string, adjust: int32 -> int32,
                                                  position: int32, length: int32, until: int32)
    requires IsLatin1(record) && |record| <= MaxInt
    ensures var r := ExtractField(Some(record), |record|, Latin1, adjust, position, length, until);
            r.Returned? && r.text.Some? ==>
              var pos := ResolvePosition(|record|, adjust, position, until).value;
              0 <= pos && pos + length <= |record| && r.text.value == record[pos..pos + length]
  {
    var r := ExtractField(Some(record), |record|, Latin1, adjust, position, length, until);
    if r.Returned? && r.text.Some? {
      PresentFieldIsByteSlice(record, Latin1, adjust, position, length, until);
      var pos := ResolvePosition(|record|, adjust, position, until).value;
      Latin1SliceIsSubstring(record, pos, pos + length);
    }
  }

  /** The adjustment of a context with no repeating segment before the field. */
  function NoAdjustment(position: int32): int32 {
    position
  }

  /** The record "ABC123  " (8 bytes, ISO-8859-1, no repeat adjustment):
      3 bytes at position 3 read "123"; 2 bytes at position -2 read the
      trailing "  "; and 2 bytes at position 7 overrun the record. */
  lemma {:induction false} ExampleRecord()
    ensures ExtractField(Some("ABC123  "), 8, Latin1, NoAdjustment, 3, 3, 0) == Returned(Some("123"))
    ensures ExtractField(Some("ABC123  "), 8, Latin1, NoAdjustment, -2, 2, 0) == Returned(Some("  "))
    ensures ExtractField(Some("ABC123  "), 8, Latin1, NoAdjustment, 7, 2, 0) == Thrown(IndexOutOfBounds)
  {
    var rec := "ABC123  ";
    assert IsLatin1(rec);
    Latin1FieldIsSubstring(rec, NoAdjustment, 3, 3, 0);
    assert rec[3..6] == "123";
    Latin1FieldIsSubstring(rec, NoAdjustment, -2, 2, 0);
    assert rec[6..8] == "  ";
  }

  /** The unmarshalling context of a fixed-length stream. */
  class FixedLengthUnmarshallingContext {
    /** The encoding the stream was configured with. */
    const encoding: Charset
    /** The record being unmarshalled; `None` until one is installed. */
    var record: Option<string>
    /** The record's length in encoded bytes, computed when it is installed. */
    var recordLength: int32
    /** The field-text cache: the text last read for each field name. */
    var fieldText: map<string, string>

    /** The stored length is the byte length of the stored record. */
    ghost predicate Valid()
      reads this
    {
      recordLength == ByteLength(encoding, record)
    }

    constructor (encoding: Charset)
      ensures Valid()
      ensures this.encoding == encoding && record == None && recordLength == 0
      ensures fieldText == map[]
    {
      this.encoding := encoding;
      record := None;
      recordLength := 0;
      fieldText := map[];
    }

    /** Installs `value` as the record and measures it once. A Java array
        cannot hold more than `MaxInt` bytes, so no longer record exists. */
    method SetRecordValue(value: string)
      requires encoding.Supported? ==> |encoding.encode(value)| <= MaxInt
      modifies this`record, this`recordLength
      ensures Valid()
      ensures record == Some(value)
      ensures recordLength == (if encoding.Supported? then |encoding.encode(value)| else 0)
    {
      record := Some(value);
      var bytesLength := 0;
      if encoding.Supported? {
        bytesLength := |encoding.encode(value)|;
      }
      recordLength := bytesLength;
    }

    /** The length of the record being unmarshalled, in encoded bytes. */
    function GetRecordLength(): (n: int32)
      reads this
      requires Valid()
      ensures n == ByteLength(encoding, record)
    {
      recordLength
    }

    /** Reads the text of field `name` at `position`, `length` bytes long,
        with `until` bounding a non-negative position, and caches it. */
    method GetFieldText(name: string, position: int32, length: int32, until: int32,
                        adjust: int32 -> int32)
      returns (r: Outcome)
      requires Valid()
      modifies this`fieldText
      ensures Valid()
      ensures record == old(record) && recordLength == old(recordLength)
      ensures r == ExtractField(record, recordLength, encoding, adjust, position, length, until)
      ensures fieldText == if r.Returned? && r.text.Some?
                           then old(fieldText)[name := r.text.value]
                           else old(fieldText)
    {
      var max := Add32(recordLength, until);
      var pos := position;
      if pos < 0 {
        pos := recordLength + pos;
        pos := adjust(pos);
        if pos < 0 {
          return Returned(None);
        }
      } else {
        pos := adjust(pos);
        if pos >= max {
          return Returned(None);
        }
      }

      if record.None? {
        return Thrown(NullPointer);
      }
      if encoding.Unsupported? {
        return Returned(None);
      }
      var src := encoding.encode(record.value);
      if length < 0 {
        return Thrown(NegativeArraySize);
      }
      var tmp := new byte[length];
      var copied := ArrayCopy(src, pos, tmp, 0, length);
      if !copied {
        return Thrown(IndexOutOfBounds);
      }
      assert tmp[..] == src[pos..pos + length];
      var text := encoding.decode(tmp[..]);
      fieldText := fieldText[name := text];
      r := Returned(Some(text));
    }
  }
}
