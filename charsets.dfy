/** Character encodings as the fixed-length context uses them: a string is
    turned into bytes to measure and slice a record, and a slice of bytes is
    turned back into a string. */
module Charsets {
  import opened Base

  /** The context's configured encoding. `Unsupported` is a name the Java
      runtime does not know, on which every conversion throws
      `UnsupportedEncodingException`. */
  datatype Charset =
    | Unsupported
    | Supported(encode: string -> seq<byte>, decode: seq<byte> -> string)

  /** The byte ISO-8859-1 writes in place of a character it cannot represent ('?'). */
  const Replacement: byte := 0x3F

  /** True when every character of `s` has an ISO-8859-1 byte of its own. */
  predicate IsLatin1(s: string) {
    forall i :: 0 <= i < |s| ==> s[i] as int < 256
  }

  function EncodeChar(c: char): (b: byte)
    ensures c as int < 256 <==> b as int == c as int
  {
    if c as int < 256 then c as int as byte else Replacement
  }

  function DecodeByte(b: byte): (c: char)
    ensures c as int == b as int
  {
    b as int as char
  }

  /** ISO-8859-1 encoding: one byte per character. */
  function Latin1Encode(s: string): (r: seq<byte>)
    ensures |r| == |s|
    ensures forall i :: 0 <= i < |s| ==> r[i] == EncodeChar(s[i])
  {
    if s == [] then [] else [EncodeChar(s[0])] + Latin1Encode(s[1..])
  }

  /** ISO-8859-1 decoding: one character per byte. */
  function Latin1Decode(bs: seq<byte>): (r: string)
    ensures |r| == |bs|
    ensures IsLatin1(r)
    ensures forall i :: 0 <= i < |bs| ==> r[i] == DecodeByte(bs[i])
  {
    if bs == [] then [] else [DecodeByte(bs[0])] + Latin1Decode(bs[1..])
  }

  const Latin1: Charset := Supported(Latin1Encode, Latin1Decode)

  /** Decoding what was encoded gives back every string ISO-8859-1 can represent. */
  lemma {:induction false} Latin1RoundTrip(s: string)
    requires IsLatin1(s)
    ensures Latin1Decode(Latin1Encode(s)) == s
  {
    if s != [] {
      assert IsLatin1(s[1..]) by {
        forall i | 0 <= i < |s[1..]| ensures s[1..][i] as int < 256 {
          assert s[1..][i] == s[i + 1];
        }
      }
      Latin1RoundTrip(s[1..]);
      assert Latin1Encode(s) == [EncodeChar(s[0])] + Latin1Encode(s[1..]);
    }
  }

  /** Slicing the encoded bytes is slicing the string: ISO-8859-1 is a
      single-byte encoding, so byte offsets are character offsets. */
  lemma {:induction false} Latin1SliceIsSubstring(s: string, i: int, j: int)
    requires IsLatin1(s)
    requires 0 <= i <= j <= |s|
    ensures Latin1Decode(Latin1Encode(s)[i..j]) == s[i..j]
  {
    Latin1Slice(s, i, j);
    Latin1EncodeSlice(s, i, j);
    Latin1RoundTrip(s[i..j]);
  }

  lemma {:induction false} Latin1Slice(s: string, i: int, j: int)
    requires IsLatin1(s)
    requires 0 <= i <= j <= |s|
    ensures IsLatin1(s[i..j])
  {
    forall k | 0 <= k < j - i ensures s[i..j][k] as int < 256 {
      assert s[i..j][k] == s[i + k];
    }
  }

  /** Encoding commutes with slicing. */
  lemma {:induction false} Latin1EncodeSlice(s: string, i: int, j: int)
    requires 0 <= i <= j <= |s|
    ensures Latin1Encode(s)[i..j] == Latin1Encode(s[i..j])
  {
    var e, t := Latin1Encode(s), Latin1Encode(s[i..j]);
    forall k | 0 <= k < j - i ensures e[i..j][k] == t[k] {
      calc {
        e[i..j][k];
        e[i + k];
        EncodeChar(s[i + k]);
        { assert s[i..j][k] == s[i + k]; }
        EncodeChar(s[i..j][k]);
        t[k];
      }
    }
  }
}
