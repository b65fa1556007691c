/** Bytes of a token and their reading as directive text. */
module Bytes {

  newtype byte = x: int | 0 <= x < 256

  /** The line feed that ends a directive's first line. */
  const Newline: byte := 0x0A

  /** Text whose every character fits in one byte. */
  predicate IsByteText(s: string)
  {
    forall i :: 0 <= i < |s| ==> s[i] as int < 256
  }

  /** Reads each byte as the character with the same code (exact for ASCII text). */
  function Decode(b: seq<byte>): (s: string)
    ensures |s| == |b|
    ensures forall i :: 0 <= i < |b| ==> s[i] as int == b[i] as int
    ensures IsByteText(s)
  {
    seq(|b|, i requires 0 <= i < |b| => (b[i] as int) as char)
  }

  /** Writes each character of a one-byte text as the byte with the same code. */
  function Encode(s: string): (b: seq<byte>)
    requires IsByteText(s)
    ensures |b| == |s|
    ensures forall i :: 0 <= i < |s| ==> b[i] as int == s[i] as int
  {
    seq(|s|, i requires 0 <= i < |s| => s[i] as int as byte)
  }

  lemma DecodeEncode(s: string)
    requires IsByteText(s)
    ensures Decode(Encode(s)) == s
  {
    var d := Decode(Encode(s));
    assert forall i :: 0 <= i < |s| ==> d[i] as int == s[i] as int;
  }

  lemma EncodeDecode(b: seq<byte>)
    ensures Encode(Decode(b)) == b
  {
  }

  /** A text without a line feed encodes to bytes without a newline. */
  lemma EncodeWithoutNewline(s: string)
    requires IsByteText(s)
    requires '\n' !in s
    ensures Newline !in Encode(s)
  {
    var b := Encode(s);
    forall i | 0 <= i < |b|
      ensures b[i] != Newline
    {
      assert s[i] != '\n';
    }
  }

  lemma EncodeAppend(s: string, t: string)
    requires IsByteText(s) && IsByteText(t)
    ensures IsByteText(s + t)
    ensures Encode(s + t) == Encode(s) + Encode(t)
  {
  }
}
