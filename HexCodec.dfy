/** The hex codec of src/decoder.py: `bytes.fromhex(data.decode('ascii'))`
    to decode and `data.hex().encode('ascii')` to encode. */
module HexCodec {
  import opened Wrappers
  import opened Bytes

  /** The whitespace `bytes.fromhex` skips: space, tab, newline, vertical
      tab, form feed and carriage return. */
  predicate IsHexSpace(c: byte)
  {
    c == 32 || 9 <= c <= 13
  }

  /** The value of one hexadecimal digit, either case. */
  function HexValue(c: byte): (r: Option<nat>)
    ensures r.Some? ==> r.value < 16
    ensures r.Some? ==> !IsHexSpace(c)
  {
    if 48 <= c <= 57 then Some(c as int - 48)
    else if 97 <= c <= 102 then Some(c as int - 97 + 10)
    else if 65 <= c <= 70 then Some(c as int - 65 + 10)
    else None
  }

  /** The lower-case digit for a value below 16. */
  function HexDigit(v: nat): (c: byte)
    requires v < 16
    ensures HexValue(c) == Some(v)
  {
    if v < 10 then 48 + v else 97 + (v - 10)
  }

  /** `bytes.fromhex`: whitespace may precede each pair of digits, but not
      separate the two digits of a pair; an odd digit count or any other
      character is an error (`None`). */
  function FromHex(s: seq<byte>): Option<seq<byte>>
  {
    if s == [] then Some([])
    else if IsHexSpace(s[0]) then FromHex(s[1..])
    else if |s| < 2 then None
    else
      match (HexValue(s[0]), HexValue(s[1]))
      case (Some(hi), Some(lo)) =>
        (match FromHex(s[2..])
         case None => None
         case Some(rest) => Some([16 * hi + lo] + rest))
      case _ => None
  }

  /** The decode path: the strict ASCII decode fails on any byte of 128 or
      more before `fromhex` is reached. */
  function HexDecode(data: seq<byte>): (r: Option<seq<byte>>)
    ensures (exists i :: 0 <= i < |data| && data[i] >= 128) ==> r.None?
  {
    if forall i :: 0 <= i < |data| ==> data[i] < 128 then FromHex(data) else None
  }

  /** `bytes.hex()`: two lower-case digits per byte, high half first. */
  function HexEncode(b: seq<byte>): (r: seq<byte>)
    ensures |r| == 2 * |b|
    ensures forall i :: 0 <= i < |r| ==> r[i] < 128 && HexValue(r[i]).Some?
  {
    if b == [] then [] else [HexDigit(b[0] / 16), HexDigit(b[0] % 16)] + HexEncode(b[1..])
  }

  /** Decoding what the encoder writes gives the bytes back. */
  lemma {:induction false} FromHexOfHexEncode(b: seq<byte>)
    ensures FromHex(HexEncode(b)) == Some(b)
    decreases |b|
  {
    if b != [] {
      var e := HexEncode(b);
      assert e[2..] == HexEncode(b[1..]);
      FromHexOfHexEncode(b[1..]);
      assert 16 * (b[0] / 16) + b[0] % 16 == b[0];
      assert b == [b[0]] + b[1..];
    }
  }

  lemma HexDecodeOfHexEncode(b: seq<byte>)
    ensures HexDecode(HexEncode(b)) == Some(b)
  {
    FromHexOfHexEncode(b);
  }

  /** The input with the skippable whitespace removed and upper-case digits
      lowered. */
  function Canonical(s: seq<byte>): (r: seq<byte>)
    ensures |r| <= |s|
  {
    if s == [] then []
    else if IsHexSpace(s[0]) then Canonical(s[1..])
    else [LowerHex(s[0])] + Canonical(s[1..])
  }

  function LowerHex(c: byte): byte
  {
    if 65 <= c <= 70 then c + 32 else c
  }

  lemma HexDigitOfValue(c: byte)
    requires HexValue(c).Some?
    ensures HexDigit(HexValue(c).value) == LowerHex(c)
  {
  }

  /** Whatever `fromhex` accepts is, up to whitespace and case, what the
      encoder writes for the result. */
  lemma {:induction false} HexEncodeOfFromHex(s: seq<byte>)
    requires FromHex(s).Some?
    ensures HexEncode(FromHex(s).value) == Canonical(s)
    decreases |s|
  {
    if s != [] {
      if IsHexSpace(s[0]) {
        HexEncodeOfFromHex(s[1..]);
      } else {
        var hi, lo := HexValue(s[0]).value, HexValue(s[1]).value;
        var rest := FromHex(s[2..]).value;
        HexEncodeOfFromHex(s[2..]);
        HexPair(hi, lo, rest);
        HexDigitOfValue(s[0]);
        HexDigitOfValue(s[1]);
        CanonicalPair(s);
      }
    }
  }

  lemma HexPair(hi: nat, lo: nat, rest: seq<byte>)
    requires hi < 16 && lo < 16
    ensures HexEncode([16 * hi + lo] + rest) == [HexDigit(hi), HexDigit(lo)] + HexEncode(rest)
  {
    var b := 16 * hi + lo;
    assert b / 16 == hi && b % 16 == lo;
    assert ([b] + rest)[1..] == rest;
  }

  lemma CanonicalPair(s: seq<byte>)
    requires |s| >= 2 && !IsHexSpace(s[0]) && !IsHexSpace(s[1])
    ensures Canonical(s) == [LowerHex(s[0]), LowerHex(s[1])] + Canonical(s[2..])
  {
    assert s[1..][1..] == s[2..];
  }

  /** An odd number of digits is rejected. */
  lemma {:induction false} FromHexOddDigits(s: seq<byte>)
    requires forall i :: 0 <= i < |s| ==> HexValue(s[i]).Some?
    requires |s| % 2 == 1
    ensures FromHex(s).None?
    decreases |s|
  {
    if |s| >= 2 {
      assert forall i :: 0 <= i < |s[2..]| ==> HexValue(s[2..][i]).Some? by {
        forall i | 0 <= i < |s[2..]| ensures HexValue(s[2..][i]).Some? {
          assert s[2..][i] == s[i + 2];
        }
      }
      FromHexOddDigits(s[2..]);
    }
  }

  /** A character that is neither a digit nor whitespace is rejected. */
  lemma {:induction false} FromHexBadCharacter(s: seq<byte>, k: nat)
    requires k < |s| && HexValue(s[k]).None? && !IsHexSpace(s[k])
    ensures FromHex(s).None?
    decreases |s|
  {
    if k == 0 {
    } else if IsHexSpace(s[0]) {
      FromHexBadCharacter(s[1..], k - 1);
    } else if |s| >= 2 && HexValue(s[0]).Some? && HexValue(s[1]).Some? {
      if k == 1 {
      } else {
        assert s[2..][k - 2] == s[k];
        FromHexBadCharacter(s[2..], k - 2);
      }
    }
  }
}
