/** Lowercase hexadecimal text of a byte string, as Go's encoding/hex EncodeToString
    writes it, with a decoder that serves as its inverse. */
module Hex {
  import opened Wrappers

  type Byte = b: int | 0 <= b < 256

  predicate IsLowerHex(c: char) {
    '0' <= c <= '9' || 'a' <= c <= 'f'
  }

  /** Entry v of the table "0123456789abcdef". */
  function NibbleChar(v: nat): (c: char)
    requires v < 16
    ensures IsLowerHex(c)
  {
    if v < 10 then ('0' as int + v) as char else ('a' as int + v - 10) as char
  }

  function NibbleValue(c: char): (v: nat)
    requires IsLowerHex(c)
    ensures v < 16 && NibbleChar(v) == c
  {
    if c <= '9' then c as int - '0' as int else c as int - 'a' as int + 10
  }

  /** hex.EncodeToString: two characters per byte, the high nibble (b >> 4) first and
      then the low nibble (b & 0x0f). */
  function Encode(src: seq<Byte>): (s: string)
    ensures |s| == 2 * |src|
    ensures forall j :: 0 <= j < |s| ==> IsLowerHex(s[j])
    ensures forall i :: 0 <= i < |src| ==> s[2 * i] == NibbleChar(src[i] / 16) && s[2 * i + 1] == NibbleChar(src[i] % 16)
  {
    if src == [] then ""
    else
      var rest := Encode(src[1..]);
      assert forall i :: 1 <= i < |src| ==> src[i] == src[1..][i - 1];
      [NibbleChar(src[0] / 16), NibbleChar(src[0] % 16)] + rest
  }

  /** Reads lowercase hexadecimal text back into bytes; None on odd length or on a
      character outside [0-9a-f]. */
  function Decode(s: string): Option<seq<Byte>>
    decreases |s|
  {
    if s == [] then Some([])
    else if |s| == 1 || !IsLowerHex(s[0]) || !IsLowerHex(s[1]) then None
    else
      match Decode(s[2..])
      case None => None
      case Some(rest) => Some([NibbleValue(s[0]) * 16 + NibbleValue(s[1])] + rest)
  }

  lemma NibbleRoundTrip(v: nat)
    requires v < 16
    ensures NibbleValue(NibbleChar(v)) == v
  {
  }

  /** Decoding the encoding gives back the bytes. */
  lemma {:induction false} DecodeEncode(src: seq<Byte>)
    ensures Decode(Encode(src)) == Some(src)
  {
    if src != [] {
      var b := src[0];
      var s := Encode(src);
      assert s[2..] == Encode(src[1..]);
      DecodeEncode(src[1..]);
      NibbleRoundTrip(b / 16);
      NibbleRoundTrip(b % 16);
      assert [b] + src[1..] == src;
    }
  }

  /** Different byte strings have different encodings. */
  lemma EncodeInjective(a: seq<Byte>, b: seq<Byte>)
    requires Encode(a) == Encode(b)
    ensures a == b
  {
    DecodeEncode(a);
    DecodeEncode(b);
  }
}
