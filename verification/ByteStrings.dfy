/** Byte strings as the store sees them, and the two C-string views of them. */
module ByteStrings {

  type byte = b: int | 0 <= b < 256

  type Bytes = seq<byte>

  predicate NulFree(s: Bytes) {
    forall i :: 0 <= i < |s| ==> s[i] != 0
  }

  /** The prefix a NUL-terminated reader sees: everything before the first NUL. */
  function CStr(s: Bytes): (r: Bytes)
    ensures NulFree(r)
    ensures r <= s
    ensures NulFree(s) ==> r == s
  {
    if s == [] || s[0] == 0 then [] else [s[0]] + CStr(s[1..])
  }

  /** What `strncmp` plus a length comparison can tell apart: bytes behind the first NUL
      count only by their number. */
  function Norm(s: Bytes): (r: Bytes)
    ensures |r| == |s|
    ensures NulFree(s) ==> r == s
  {
    if s == [] then []
    else if s[0] == 0 then seq(|s|, _ => 0)
    else [s[0]] + Norm(s[1..])
  }

  /** `Time33Hash`: the characters are signed, so a byte above 127 is widened to 32 bits with its sign. */
  function Hash(s: Bytes): (h: nat)
    ensures h < 0x1_0000_0000_0000_0000
  {
    if s == [] then 5381
    else
      var last: int := s[|s| - 1];
      (33 * Hash(s[..|s| - 1]) + (if last < 128 then last else last + 0xFFFF_FF00)) % 0x1_0000_0000_0000_0000
  }
}
