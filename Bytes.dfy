/** Bytes as Python's `bytes` sees them, and the `errors='ignore'` ASCII view. */
module Bytes {
  import opened Text

  type byte = b: int | 0 <= b < 256

  /** The bytes of an ASCII string literal. */
  function AsciiBytes(s: string): (r: seq<byte>)
    requires IsAscii(s)
    ensures |r| == |s|
    ensures forall i :: 0 <= i < |s| ==> r[i] == s[i] as int
  {
    seq(|s|, i requires 0 <= i < |s| => s[i] as int)
  }

  /** `data.decode('ascii', errors='ignore')`, kept as bytes: every byte of
      128 or more is dropped, every other byte is kept in order. */
  function DropNonAscii(data: seq<byte>): (r: seq<byte>)
    ensures forall i :: 0 <= i < |r| ==> r[i] < 128
    ensures |r| <= |data|
    ensures (forall i :: 0 <= i < |data| ==> data[i] < 128) ==> r == data
  {
    if data == [] then []
    else if data[0] < 128 then [data[0]] + DropNonAscii(data[1..])
    else DropNonAscii(data[1..])
  }
}
