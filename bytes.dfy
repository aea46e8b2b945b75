/** Bytes as the decoders see them, and the ASCII case folding used by
    case-insensitive keyword matching. */
module Bytes {

  /** One octet of the wire. */
  type byte = b: int | 0 <= b < 256

  const SP: byte := 0x20
  const HTAB: byte := 0x09

  /** True when every character of `s` fits in one octet. */
  predicate IsAsciiString(s: string) {
    forall i | 0 <= i < |s| :: s[i] as int < 256
  }

  /** The octets of a string literal whose characters all fit in one octet. */
  function Ascii(s: string): (r: seq<byte>)
    requires IsAsciiString(s)
    ensures |r| == |s|
  {
    seq(|s|, i requires 0 <= i < |s| => s[i] as int)
  }

  /** ASCII lower-casing of one octet; every other octet is left alone. */
  function ToLower(b: byte): (r: byte)
    ensures 'A' as int <= b <= 'Z' as int ==> r == b + 32
    ensures !('A' as int <= b <= 'Z' as int) ==> r == b
  {
    if 'A' as int <= b <= 'Z' as int then b + 32 else b
  }

  /** `k` spells `tag` up to the letter case of its ASCII letters. */
  predicate IsCaseVariant(k: seq<byte>, tag: seq<byte>) {
    |k| == |tag| && forall i | 0 <= i < |tag| :: ToLower(k[i]) == ToLower(tag[i])
  }
}
