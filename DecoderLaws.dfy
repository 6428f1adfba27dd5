/** What `Decoder.decode` and `encode` of src/decoder.py promise together:
    case-insensitive names, the branch each name reaches, and which names
    round-trip which data. */
module DecoderLaws {
  import opened Wrappers
  import opened Text
  import opened Bytes
  import opened Rotation
  import HexCodec
  import opened Decoder


  /** Names are case-insensitive in both directions. */
  lemma DecodeIgnoresCase(data: seq<byte>, encoding: string, codecs: Codecs)
    ensures Decode(data, encoding, codecs) == Decode(data, Lower(encoding), codecs)
    ensures Encode(data, encoding, codecs) == Encode(data, Lower(encoding), codecs)
  {
    LowerIdempotent(encoding);
  }

  /** The decoder takes a name exactly when it is one of the listed names or
      starts with `rot` or `caesar`. */
  lemma DecodeStepKnown(name: string)
    ensures DecodeStep(name).NoBranch? <==>
      !(name in DECODE_NAMES || StartsWith(name, "rot") || StartsWith(name, "caesar"))
  {
  }

  /** The encoder takes a name exactly when it is one of the listed names or
      starts with `rot` or `caesar`. */
  lemma EncodeStepKnown(name: string)
    ensures EncodeStep(name).NoBranch? <==>
      !(name in ENCODE_NAMES || StartsWith(name, "rot") || StartsWith(name, "caesar"))
  {
  }

  /** Zip, tar, uuencode and xxencode can be decoded but not encoded. */
  lemma DecodeOnlyNames(name: string)
    requires name in {"zip", "tar", "uuencode", "uu", "xxencode", "xx"}
    ensures EncodeStep(name).NoBranch? && !DecodeStep(name).NoBranch?
  {
    assert !StartsWith(name, "rot") && !StartsWith(name, "caesar") by {
      assert name[0] != 'r' && name[0] != 'c';
    }
  }

  /** Every name the encoder takes the decoder takes to the matching branch. */
  lemma EncodeStepDecodes(name: string)
    requires !EncodeStep(name).NoBranch?
    ensures DecodeStep(name) == EncodeStep(name)
  {
  }

  /** The decoders written out in the source never fail. */
  lemma PureDecodersSucceed(data: seq<byte>, encoding: string, codecs: Codecs)
    requires DecodeStep(Lower(encoding)) in {Identity, Rot, Caesar, Uu, Xx}
    ensures Decode(data, encoding, codecs).Success?
  {
  }

  /** Apart from the rotation ciphers, whose shift is read from it, the
      name only reaches the error message. */
  lemma OutcomeDependsOnStep(data: seq<byte>, n1: string, n2: string, codecs: Codecs)
    requires DecodeStep(n1) == DecodeStep(n2) && !DecodeStep(n1).Rot? && !DecodeStep(n1).Caesar?
    ensures Outcome(DecodeName(data, n1, codecs)) == Outcome(DecodeName(data, n2, codecs))
  {
  }

  /** `a85` is an alias of `ascii85` in both directions: the outcomes
      agree and only the name in an error message differs. */
  lemma Ascii85Alias(data: seq<byte>, codecs: Codecs)
    ensures Outcome(Decode(data, "a85", codecs)) == Outcome(Decode(data, "ascii85", codecs))
    ensures Outcome(Encode(data, "a85", codecs)) == Outcome(Encode(data, "ascii85", codecs))
  {
    LowerOfUnchanged("a85");
    LowerOfUnchanged("ascii85");
  }

  /** `hexadecimal` and `base16` are aliases of `hex` in both directions. */
  lemma HexAliases(data: seq<byte>, codecs: Codecs)
    ensures Outcome(Decode(data, "hexadecimal", codecs)) == Outcome(Decode(data, "hex", codecs))
    ensures Outcome(Decode(data, "base16", codecs)) == Outcome(Decode(data, "hex", codecs))
    ensures Outcome(Encode(data, "hexadecimal", codecs)) == Outcome(Encode(data, "hex", codecs))
    ensures Outcome(Encode(data, "base16", codecs)) == Outcome(Encode(data, "hex", codecs))
  {
    LowerOfUnchanged("hexadecimal");
    LowerOfUnchanged("base16");
    LowerOfUnchanged("hex");
  }

  /** `gz` is an alias of `gzip` in both directions. */
  lemma GzipAlias(data: seq<byte>, codecs: Codecs)
    ensures Outcome(Decode(data, "gz", codecs)) == Outcome(Decode(data, "gzip", codecs))
    ensures Outcome(Encode(data, "gz", codecs)) == Outcome(Encode(data, "gzip", codecs))
  {
    LowerOfUnchanged("gz");
    LowerOfUnchanged("gzip");
  }

  /** `bzip2` is an alias of `bz2` in both directions. */
  lemma Bzip2Alias(data: seq<byte>, codecs: Codecs)
    ensures Outcome(Decode(data, "bzip2", codecs)) == Outcome(Decode(data, "bz2", codecs))
    ensures Outcome(Encode(data, "bzip2", codecs)) == Outcome(Encode(data, "bz2", codecs))
  {
    LowerOfUnchanged("bzip2");
    LowerOfUnchanged("bz2");
  }

  /** `uu` is an alias of `uuencode`: both decode alike, and the encoder
      rejects both as unsupported. */
  lemma UuAlias(data: seq<byte>, codecs: Codecs)
    ensures Decode(data, "uu", codecs) == Decode(data, "uuencode", codecs) == Success(LineCodec.UuDecode(data))
    ensures Outcome(Encode(data, "uu", codecs)) == Outcome(Encode(data, "uuencode", codecs)) == Failure(UnsupportedEncoding)
  {
    LowerOfUnchanged("uu");
    LowerOfUnchanged("uuencode");
    DecodeOnlyNames("uu");
    DecodeOnlyNames("uuencode");
    assert !StartsWith("uu", "rot") && !StartsWith("uu", "caesar") by {
      assert "uu"[0] != 'r' && "uu"[0] != 'c';
    }
    assert !StartsWith("uuencode", "rot") && !StartsWith("uuencode", "caesar") by {
      assert "uuencode"[0] != 'r' && "uuencode"[0] != 'c';
    }
    assert DecodeStep("uu") == Uu && DecodeStep("uuencode") == Uu;
  }

  /** `xx` is an alias of `xxencode`: both decode alike, and the encoder
      rejects both as unsupported. */
  lemma XxAlias(data: seq<byte>, codecs: Codecs)
    ensures Decode(data, "xx", codecs) == Decode(data, "xxencode", codecs) == Success(LineCodec.XxDecode(data))
    ensures Outcome(Encode(data, "xx", codecs)) == Outcome(Encode(data, "xxencode", codecs)) == Failure(UnsupportedEncoding)
  {
    LowerOfUnchanged("xx");
    LowerOfUnchanged("xxencode");
    DecodeOnlyNames("xx");
    DecodeOnlyNames("xxencode");
    assert !StartsWith("xx", "rot") && !StartsWith("xx", "caesar") by {
      assert "xx"[0] != 'r' && "xx"[0] != 'c';
    }
    assert !StartsWith("xxencode", "rot") && !StartsWith("xxencode", "caesar") by {
      assert "xxencode"[0] != 'r' && "xxencode"[0] != 'c';
    }
    assert DecodeStep("xx") == Xx && DecodeStep("xxencode") == Xx;
  }

  /** `none` passes the data through unchanged both ways. */
  lemma NoneIsIdentity(data: seq<byte>, codecs: Codecs)
    ensures Decode(data, "none", codecs) == Success(data)
    ensures Encode(data, "none", codecs) == Success(data)
  {
    LowerOfUnchanged("none");
  }

  /** When a library's compressor and decompressor are inverse, so are the
      encoder and decoder under every name of that library. */
  lemma LibraryRoundTrip(data: seq<byte>, encoding: string, codecs: Codecs)
    requires EncodeStep(Lower(encoding)).UseLibrary?
    requires var lib := EncodeStep(Lower(encoding)).library;
      codecs.decompress(lib, codecs.compress(lib, data)) == Some(data)
    requires EncodeStep(Lower(encoding)).library == Brotli ==> codecs.hasBrotli
    ensures RoundTrips(data, encoding, codecs)
  {
    EncodeStepDecodes(Lower(encoding));
  }

  /** Without the brotli module both directions fail. */
  lemma BrotliMissing(data: seq<byte>, codecs: Codecs)
    requires !codecs.hasBrotli
    ensures Outcome(Decode(data, "brotli", codecs)) == Failure(BrotliUnavailable)
    ensures Outcome(Encode(data, "brotli", codecs)) == Failure(BrotliUnavailable)
  {
    LowerOfUnchanged("brotli");
  }

  /** Hex round-trips under every hex name. */
  lemma HexRoundTrip(data: seq<byte>, encoding: string, codecs: Codecs)
    requires EncodeStep(Lower(encoding)).Hex?
    ensures RoundTrips(data, encoding, codecs)
  {
    EncodeStepDecodes(Lower(encoding));
    HexCodec.HexDecodeOfHexEncode(data);
  }

  /** Whatever the hex decoder accepts re-encodes to its input, whitespace
      removed and digits lowered. */
  lemma HexReencode(text: seq<byte>, encoding: string, codecs: Codecs)
    requires EncodeStep(Lower(encoding)).Hex?
    requires Decode(text, encoding, codecs).Success?
    ensures Encode(Decode(text, encoding, codecs).value, encoding, codecs) == Success(HexCodec.Canonical(text))
  {
    EncodeStepDecodes(Lower(encoding));
    HexCodec.HexEncodeOfFromHex(text);
  }

  // ---------------------------------------------------------- rotation names

  lemma RotEncodes(data: seq<byte>, name: string, codecs: Codecs)
    requires EncodeStep(name).Rot?
    ensures EncodeName(data, name, codecs) == Success(Rotate(data, RotShift(name)))
  {
  }

  lemma RotDecodes(data: seq<byte>, name: string, codecs: Codecs)
    requires DecodeStep(name).Rot?
    ensures DecodeName(data, name, codecs) == Success(Rotate(data, RotShift(name)))
  {
  }

  lemma RotIsDecodable(name: string)
    requires EncodeStep(name).Rot?
    ensures DecodeStep(name).Rot?
  {
  }

  /** The rot encoder is the rot decoder, so a rot name round-trips `data`
      exactly when rotating it twice by the shift gives it back. */
  lemma RotRoundTrips(data: seq<byte>, encoding: string, codecs: Codecs)
    requires EncodeStep(Lower(encoding)).Rot?
    ensures RoundTrips(data, encoding, codecs) <==>
      Rotate(Rotate(data, RotShift(Lower(encoding))), RotShift(Lower(encoding))) == data
  {
    var name := Lower(encoding);
    var k := RotShift(name);
    RotEncodes(data, name, codecs);
    RotIsDecodable(name);
    RotDecodes(Rotate(data, k), name, codecs);
  }

  lemma RotRoundTripsAll(data: seq<byte>, encoding: string, codecs: Codecs)
    requires EncodeStep(Lower(encoding)).Rot?
    requires (2 * RotShift(Lower(encoding))) % 26 == 0
    ensures RoundTrips(data, encoding, codecs)
  {
    RotRoundTrips(data, encoding, codecs);
    RotateTwice(data, RotShift(Lower(encoding)));
  }

  lemma RotRoundTripsFails(encoding: string, codecs: Codecs)
    requires EncodeStep(Lower(encoding)).Rot?
    requires (2 * RotShift(Lower(encoding))) % 26 != 0
    ensures !RoundTrips([97], encoding, codecs)
  {
    RotRoundTrips([97], encoding, codecs);
    RotateTwiceMoves(RotShift(Lower(encoding)));
  }

  /** A rot name round-trips every input exactly when twice its shift is a
      multiple of 26. */
  lemma RotRoundTripIff(encoding: string, codecs: Codecs)
    requires EncodeStep(Lower(encoding)).Rot?
    ensures (forall data :: RoundTrips(data, encoding, codecs)) <==> (2 * RotShift(Lower(encoding))) % 26 == 0
  {
    if (2 * RotShift(Lower(encoding))) % 26 == 0 {
      forall data: seq<byte> ensures RoundTrips(data, encoding, codecs) {
        RotRoundTripsAll(data, encoding, codecs);
      }
    } else {
      RotRoundTripsFails(encoding, codecs);
    }
  }

  /** `rot` followed by a number shifts by that number. */
  lemma RotNamed(k: nat)
    ensures Lower("rot" + IntToString(k)) == "rot" + IntToString(k)
    ensures EncodeStep("rot" + IntToString(k)).Rot?
    ensures RotShift("rot" + IntToString(k)) == k
  {
    var name := "rot" + IntToString(k);
    assert name[0] == 'r' && name[..3] == "rot";
    assert forall i :: 0 <= i < |name| ==> !IsUpperLetter(name[i]) by {
      forall i | 0 <= i < |name| ensures !IsUpperLetter(name[i]) {
        if i >= 3 {
          assert name[i] == IntToString(k)[i - 3];
        }
      }
    }
    LowerOfUnchanged(name);
    RotShiftOfNumber(k);
  }

  /** `rotN` round-trips every input exactly when 2N is a multiple of 26:
      `rot13` and `rot0` do, `rot7` does not. */
  lemma RotNamedRoundTrips(k: nat, codecs: Codecs)
    ensures (forall data :: RoundTrips(data, "rot" + IntToString(k), codecs)) <==> (2 * k) % 26 == 0
  {
    RotNamed(k);
    RotRoundTripIff("rot" + IntToString(k), codecs);
  }

  /** A bare `rot` shifts by 13, like `rot13`. */
  lemma BareRot(data: seq<byte>, codecs: Codecs)
    ensures Decode(data, "rot", codecs) == Success(Rotate(data, 13))
  {
    LowerOfUnchanged("rot");
    RotDecodes(data, "rot", codecs);
  }

  // ------------------------------------------------------------ caesar names

  lemma CaesarIsDecodable(name: string)
    requires EncodeStep(name).Caesar?
    ensures DecodeStep(name).Caesar?
  {
  }

  /** Under a caesar name the decoder shifts back by the parsed shift, or by
      3 when there is no colon or the shift does not parse. */
  lemma CaesarDecodes(data: seq<byte>, name: string, codecs: Codecs)
    requires DecodeStep(name).Caesar?
    ensures DecodeName(data, name, codecs) == Success(Rotate(data, -CaesarShift(name)))
  {
  }

  lemma CaesarEncodeDispatch(data: seq<byte>, name: string, codecs: Codecs)
    requires EncodeStep(name).Caesar?
    ensures EncodeName(data, name, codecs) == CaesarEncode(data, name)
  {
  }

  /** The decoder reads back the negated shift from the inverted name. */
  lemma NegatedShiftNameShift(k: int)
    ensures CaesarShift(NegatedShiftName(k)) == -k
  {
    CaesarShiftOfNumber(-k);
  }

  lemma DefaultInvertedShift()
    ensures CaesarShift(DEFAULT_INVERTED) == -3
  {
    var m := -3;
    assert DEFAULT_INVERTED == "caesar:" + IntToString(m);
    CaesarShiftOfNumber(m);
  }

  /** The caesar encoder is the caesar decoder run on the inverted name. */
  lemma CaesarEncodeIsInvertedDecode(data: seq<byte>, name: string)
    requires InvertedName(name).Some?
    ensures CaesarEncode(data, name) == Success(Rotate(data, -CaesarShift(InvertedName(name).value)))
  {
    var inverted := InvertedName(name).value;
    var k := if ':' in name then ParseInt(AfterFirstColon(name).value).value else 3;
    if ':' in name {
      NegatedShiftNameShift(k);
    } else {
      DefaultInvertedShift();
    }
    assert -CaesarShift(inverted) == k;
  }

  /** The shift both directions use: the parsed one, or 3 without a colon. */
  function CaesarEncodeShift(name: string): int
    requires ':' !in name || ParseInt(AfterFirstColon(name).value).Some?
  {
    if ':' in name then ParseInt(AfterFirstColon(name).value).value else 3
  }

  /** Whenever the encoder accepts a caesar name, the decoder reads the same
      shift from it. */
  lemma CaesarShiftsAgree(name: string)
    requires ':' !in name || ParseInt(AfterFirstColon(name).value).Some?
    ensures CaesarShift(name) == CaesarEncodeShift(name)
  {
  }

  lemma CaesarEncodes(data: seq<byte>, name: string, codecs: Codecs)
    requires EncodeStep(name).Caesar?
    requires ':' !in name || ParseInt(AfterFirstColon(name).value).Some?
    ensures EncodeName(data, name, codecs) == Success(Rotate(data, CaesarEncodeShift(name)))
  {
    CaesarEncodeDispatch(data, name, codecs);
  }

  /** The encoder rejects a caesar name exactly when a shift after the colon
      does not parse. */
  lemma CaesarEncodeFails(data: seq<byte>, encoding: string, codecs: Codecs)
    requires EncodeStep(Lower(encoding)).Caesar?
    ensures Encode(data, encoding, codecs).Failure? <==>
      ':' in Lower(encoding) && ParseInt(AfterFirstColon(Lower(encoding)).value).None?
  {
    CaesarEncodeDispatch(data, Lower(encoding), codecs);
  }

  lemma CaesarDecodesTo(e: seq<byte>, name: string, codecs: Codecs, d: seq<byte>)
    requires DecodeStep(name).Caesar?
    requires Rotate(e, -CaesarShift(name)) == d
    ensures DecodeName(e, name, codecs) == Success(d)
  {
  }

  lemma CaesarUndoes(data: seq<byte>, name: string)
    requires ':' !in name || ParseInt(AfterFirstColon(name).value).Some?
    ensures Rotate(Rotate(data, CaesarEncodeShift(name)), -CaesarShift(name)) == data
  {
    CaesarShiftsAgree(name);
    RotateBack(data, CaesarEncodeShift(name));
  }

  lemma CaesarDecodesEncoded(data: seq<byte>, name: string, codecs: Codecs)
    requires DecodeStep(name).Caesar?
    requires ':' !in name || ParseInt(AfterFirstColon(name).value).Some?
    ensures DecodeName(Rotate(data, CaesarEncodeShift(name)), name, codecs) == Success(data)
  {
    CaesarUndoes(data, name);
    CaesarDecodesTo(Rotate(data, CaesarEncodeShift(name)), name, codecs, data);
  }

  /** A name round-trips `data` when its encoder gives `e` and its decoder
      takes `e` back to `data`. */
  lemma RoundTripsThrough(data: seq<byte>, encoding: string, codecs: Codecs, e: seq<byte>)
    requires EncodeName(data, Lower(encoding), codecs) == Success(e)
    requires DecodeName(e, Lower(encoding), codecs) == Success(data)
    ensures RoundTrips(data, encoding, codecs)
  {
  }

  /** A caesar name round-trips every input the encoder accepts, that is,
      unless a shift after the colon does not parse. */
  lemma CaesarRoundTrip(data: seq<byte>, encoding: string, codecs: Codecs)
    requires EncodeStep(Lower(encoding)).Caesar?
    requires ':' !in Lower(encoding) || ParseInt(AfterFirstColon(Lower(encoding)).value).Some?
    ensures RoundTrips(data, encoding, codecs)
  {
    var name := Lower(encoding);
    CaesarIsDecodable(name);
    CaesarEncodes(data, name, codecs);
    CaesarDecodesEncoded(data, name, codecs);
    RoundTripsThrough(data, encoding, codecs, Rotate(data, CaesarEncodeShift(name)));
  }

  /** `caesar:N` is its own lower case ... */
  lemma CaesarNameLower(k: int)
    ensures Lower("caesar:" + IntToString(k)) == "caesar:" + IntToString(k)
  {
    var name := "caesar:" + IntToString(k);
    assert forall i :: 0 <= i < |name| ==> !IsUpperLetter(name[i]) by {
      forall i | 0 <= i < |name| ensures !IsUpperLetter(name[i]) {
        if i >= 7 {
          assert name[i] == IntToString(k)[i - 7];
        }
      }
    }
    LowerOfUnchanged(name);
  }

  /** ... reaches the caesar branch of both directions ... */
  lemma CaesarNameStep(k: int)
    ensures EncodeStep("caesar:" + IntToString(k)).Caesar?
    ensures DecodeStep("caesar:" + IntToString(k)).Caesar?
  {
    var name := "caesar:" + IntToString(k);
    assert name[0] == 'c' && name[..6] == "caesar";
    FirstDiffers(name, "rot");
  }

  /** ... and carries the shift N. */
  lemma CaesarNameShift(k: int)
    ensures ':' in "caesar:" + IntToString(k)
    ensures ParseInt(AfterFirstColon("caesar:" + IntToString(k)).value) == Some(k)
    ensures CaesarShift("caesar:" + IntToString(k)) == k
  {
    var name := "caesar:" + IntToString(k);
    assert name[6] == ':';
    AfterFirstColonOfPrefixed("caesar", IntToString(k));
    assert "caesar" + ":" + IntToString(k) == name;
    ParseIntOfIntToString(k);
    CaesarShiftOfNumber(k);
  }

  lemma CaesarNameRotates(data: seq<byte>, k: int)
    ensures Rotate(data, -CaesarShift("caesar:" + IntToString(k))) == Rotate(data, -k)
  {
    CaesarNameShift(k);
  }

  /** `caesar:N` decodes by shifting letters back by N ... */
  lemma CaesarNamedDecodes(data: seq<byte>, k: int, codecs: Codecs)
    ensures Decode(data, "caesar:" + IntToString(k), codecs) == Success(Rotate(data, -k))
  {
    var name := "caesar:" + IntToString(k);
    CaesarNameLower(k);
    CaesarNameStep(k);
    CaesarNameRotates(data, k);
    CaesarDecodesTo(data, name, codecs, Rotate(data, -k));
  }

  /** ... and encodes by shifting them forward by N. */
  lemma CaesarNamedEncodes(data: seq<byte>, k: int, codecs: Codecs)
    ensures Encode(data, "caesar:" + IntToString(k), codecs) == Success(Rotate(data, k))
  {
    var name := "caesar:" + IntToString(k);
    CaesarNameLower(k);
    CaesarNameStep(k);
    CaesarNameShift(k);
    CaesarEncodes(data, name, codecs);
  }

  /** A bare `caesar` decodes by shifting back 3 and encodes by shifting forward 3. */
  lemma CaesarDefault(data: seq<byte>, codecs: Codecs)
    ensures Decode(data, "caesar", codecs) == Success(Rotate(data, -3))
    ensures Encode(data, "caesar", codecs) == Success(Rotate(data, 3))
  {
    LowerOfUnchanged("caesar");
    assert ':' !in "caesar";
    FirstDiffers("caesar", "rot");
    CaesarDecodes(data, "caesar", codecs);
    CaesarEncodeDispatch(data, "caesar", codecs);
  }

  /** A caesar name whose shift does not parse reaches the caesar branch ... */
  lemma CaesarBadNameStep(head: string, shiftText: string)
    requires StartsWith(head, "caesar")
    ensures EncodeStep(head + ":" + shiftText).Caesar?
  {
    var name := head + ":" + shiftText;
    assert name[..6] == head[..6];
    FirstDiffers(name, "rot");
  }

  /** ... where the decoder falls back to the shift 3. */
  lemma CaesarBadNameShift(head: string, shiftText: string)
    requires ':' !in head && ParseInt(shiftText).None?
    ensures AfterFirstColon(head + ":" + shiftText) == Some(shiftText)
    ensures CaesarShift(head + ":" + shiftText) == 3
  {
    AfterFirstColonOfPrefixed(head, shiftText);
  }

  /** A shift the decoder cannot parse falls back to 3 ... */
  lemma CaesarBadShiftDecodes(data: seq<byte>, head: string, shiftText: string, codecs: Codecs)
    requires StartsWith(head, "caesar") && ':' !in head && ParseInt(shiftText).None?
    requires Lower(head + ":" + shiftText) == head + ":" + shiftText
    ensures Decode(data, head + ":" + shiftText, codecs) == Success(Rotate(data, -3))
  {
    var name := head + ":" + shiftText;
    CaesarBadNameStep(head, shiftText);
    CaesarBadNameShift(head, shiftText);
    CaesarIsDecodable(name);
    CaesarDecodes(data, name, codecs);
  }

  /** ... where the encoder reports an error. */
  lemma CaesarBadShiftFails(data: seq<byte>, head: string, shiftText: string, codecs: Codecs)
    requires StartsWith(head, "caesar") && ':' !in head && ParseInt(shiftText).None?
    requires Lower(head + ":" + shiftText) == head + ":" + shiftText
    ensures Outcome(Encode(data, head + ":" + shiftText, codecs)) == Failure(InvalidShift)
  {
    var name := head + ":" + shiftText;
    CaesarBadNameStep(head, shiftText);
    CaesarBadNameShift(head, shiftText);
    CaesarEncodeDispatch(data, name, codecs);
  }
}
