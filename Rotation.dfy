/** The ROT-n and Caesar ciphers of src/decoder.py: a 26-letter rotation of
    ASCII letters that keeps case and leaves every other byte alone. */
module Rotation {
  import opened Wrappers
  import opened Text
  import opened Bytes

  predicate IsUpperByte(b: byte) { 65 <= b <= 90 }
  predicate IsLowerByte(b: byte) { 97 <= b <= 122 }
  predicate IsLetterByte(b: byte) { IsUpperByte(b) || IsLowerByte(b) }

  /** One byte rotated forward by `shift` letters (Python's `%` is non-negative here too). */
  function RotateByte(b: byte, shift: int): (r: byte)
    ensures IsUpperByte(r) <==> IsUpperByte(b)
    ensures IsLowerByte(r) <==> IsLowerByte(b)
    ensures !IsLetterByte(b) ==> r == b
  {
    if IsUpperByte(b) then (b - 65 + shift) % 26 + 65
    else if IsLowerByte(b) then (b - 97 + shift) % 26 + 97
    else b
  }

  /** Every byte of `data` rotated by `shift`. */
  function Rotate(data: seq<byte>, shift: int): (r: seq<byte>)
    ensures |r| == |data|
  {
    seq(|data|, i requires 0 <= i < |data| => RotateByte(data[i], shift))
  }

  /** Rotation keeps every byte's case class and leaves non-letters alone. */
  lemma RotateKeepsClasses(data: seq<byte>, shift: int)
    ensures forall i :: 0 <= i < |data| ==>
      && (IsUpperByte(Rotate(data, shift)[i]) <==> IsUpperByte(data[i]))
      && (IsLowerByte(Rotate(data, shift)[i]) <==> IsLowerByte(data[i]))
      && (!IsLetterByte(data[i]) ==> Rotate(data, shift)[i] == data[i])
  {
  }

  lemma ModShift(x: int, a: int, c: int)
    ensures ((x + a) % 26 + c) % 26 == (x + a + c) % 26
  {
    var q := (x + a) / 26;
    assert x + a == 26 * q + (x + a) % 26;
    assert (x + a) % 26 + c == (x + a + c) - 26 * q;
  }

  lemma RotateByteCompose(b: byte, a: int, c: int)
    ensures RotateByte(RotateByte(b, a), c) == RotateByte(b, a + c)
  {
    if IsUpperByte(b) {
      ModShift(b - 65, a, c);
    } else if IsLowerByte(b) {
      ModShift(b - 97, a, c);
    }
  }

  /** Rotating by `a` and then by `c` is rotating by `a + c`. */
  lemma RotateCompose(data: seq<byte>, a: int, c: int)
    ensures Rotate(Rotate(data, a), c) == Rotate(data, a + c)
  {
    forall i | 0 <= i < |data| ensures Rotate(Rotate(data, a), c)[i] == Rotate(data, a + c)[i] {
      RotateByteCompose(data[i], a, c);
    }
  }

  lemma ModMultiple(x: int, k: int)
    requires 0 <= x < 26 && k % 26 == 0
    ensures (x + k) % 26 == x
  {
    var q := k / 26;
    assert k == 26 * q;
    assert x + k == 26 * q + x;
  }

  /** A rotation by a multiple of 26 changes nothing. */
  lemma RotateByMultipleOf26(data: seq<byte>, k: int)
    requires k % 26 == 0
    ensures Rotate(data, k) == data
  {
    forall i | 0 <= i < |data| ensures Rotate(data, k)[i] == data[i] {
      var b := data[i];
      if IsUpperByte(b) {
        ModMultiple(b - 65, k);
      } else if IsLowerByte(b) {
        ModMultiple(b - 97, k);
      }
    }
  }

  /** Rotating twice by `k` is the identity when 2k is a multiple of 26. */
  lemma RotateTwice(data: seq<byte>, k: int)
    requires (2 * k) % 26 == 0
    ensures Rotate(Rotate(data, k), k) == data
  {
    RotateCompose(data, k, k);
    RotateByMultipleOf26(data, k + k);
  }

  /** Rotating by `k` and back by `k` is the identity. */
  lemma RotateBack(data: seq<byte>, k: int)
    ensures Rotate(Rotate(data, k), -k) == data
  {
    RotateCompose(data, k, -k);
    RotateByMultipleOf26(data, 0);
  }

  /** Any other rotation moves the letter `a`. */
  lemma RotateMovesLetters(k: int)
    requires k % 26 != 0
    ensures Rotate([97], k) != [97]
  {
    assert Rotate([97], k)[0] == k % 26 + 97;
  }

  /** Otherwise rotating `a` twice by `k` moves it. */
  lemma RotateTwiceMoves(k: int)
    requires (2 * k) % 26 != 0
    ensures Rotate(Rotate([97], k), k) != [97]
  {
    RotateCompose([97], k, k);
    RotateMovesLetters(k + k);
  }

  /** `encoding.split(':', 1)[1]`, when the name holds a colon. */
  function AfterFirstColon(s: string): (r: Option<string>)
    ensures r.None? <==> ':' !in s
    ensures r.Some? ==> |r.value| < |s|
  {
    if s == [] then None
    else if s[0] == ':' then Some(s[1..])
    else AfterFirstColon(s[1..])
  }

  lemma AfterFirstColonOfPrefixed(head: string, tail: string)
    requires ':' !in head
    ensures AfterFirstColon(head + ":" + tail) == Some(tail)
    decreases |head|
  {
    if head == [] {
      assert head + ":" + tail == [':'] + tail;
    } else {
      assert (head + ":" + tail)[1..] == head[1..] + ":" + tail;
      AfterFirstColonOfPrefixed(head[1..], tail);
    }
  }

  /** The ROT shift named by `encoding` (already lower-cased): the integer after
      `rot`, or 13 for bare `rot` or a suffix that is not an integer. */
  function RotShift(encoding: string): int
  {
    if encoding == "rot" then 13
    else
      var suffix := if |encoding| >= 3 then encoding[3..] else "";
      ParseInt(suffix).GetOr(13)
  }

  /** The Caesar shift named by `encoding`: the integer after the first colon,
      or 3 when there is no colon or the text after it is not an integer. */
  function CaesarShift(encoding: string): int
  {
    match AfterFirstColon(encoding)
    case None => 3
    case Some(shiftText) => ParseInt(shiftText).GetOr(3)
  }

  lemma RotShiftOfNumber(k: int)
    ensures RotShift("rot" + IntToString(k)) == k
  {
    var name := "rot" + IntToString(k);
    assert name[3..] == IntToString(k);
    assert name != "rot" by { assert |name| > 3; }
    ParseIntOfIntToString(k);
  }

  lemma CaesarShiftOfNumber(k: int)
    ensures CaesarShift("caesar:" + IntToString(k)) == k
  {
    AfterFirstColonOfPrefixed("caesar", IntToString(k));
    assert "caesar" + ":" + IntToString(k) == "caesar:" + IntToString(k);
    ParseIntOfIntToString(k);
  }

  /** `Decoder._decode_rot`: rotate every letter forward by the named shift. */
  method DecodeRot(data: seq<byte>, encoding: string) returns (r: seq<byte>)
    ensures r == Rotate(data, RotShift(encoding))
  {
    var shift := RotShift(encoding);
    r := [];
    var i := 0;
    while i < |data|
      invariant 0 <= i <= |data|
      invariant |r| == i
      invariant forall j :: 0 <= j < i ==> r[j] == RotateByte(data[j], shift)
    {
      var b := data[i];
      if 65 <= b <= 90 {
        r := r + [(b - 65 + shift) % 26 + 65];
      } else if 97 <= b <= 122 {
        r := r + [(b - 97 + shift) % 26 + 97];
      } else {
        r := r + [b];
      }
      i := i + 1;
    }
  }

  /** `Decoder._decode_caesar`: rotate every letter backward by the named shift. */
  method DecodeCaesar(data: seq<byte>, encoding: string) returns (r: seq<byte>)
    ensures r == Rotate(data, -CaesarShift(encoding))
  {
    var shift := CaesarShift(encoding);
    r := [];
    var i := 0;
    while i < |data|
      invariant 0 <= i <= |data|
      invariant |r| == i
      invariant forall j :: 0 <= j < i ==> r[j] == RotateByte(data[j], -shift)
    {
      var b := data[i];
      if 65 <= b <= 90 {
        assert b - 65 - shift == b - 65 + -shift;
        r := r + [(b - 65 - shift) % 26 + 65];
      } else if 97 <= b <= 122 {
        assert b - 97 - shift == b - 97 + -shift;
        r := r + [(b - 97 - shift) % 26 + 97];
      } else {
        r := r + [b];
      }
      i := i + 1;
    }
  }
}
