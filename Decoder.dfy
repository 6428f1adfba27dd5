/** `Decoder.decode` and `encode` of src/decoder.py: the encoding name is
    lower-cased and dispatched, in a fixed order, to a library codec, the
    hex codec, a rotation cipher or the line codecs. Every error is reported
    as a failure naming the direction and the lower-cased name. */
module Decoder {
  import opened Wrappers
  import opened Text
  import opened Bytes
  import opened Rotation
  import opened LineCodec
  import opened HexCodec

  /** The codecs the source takes from Python's libraries. */
  datatype Library = Base64 | Ascii85 | Brotli | Gzip | Bz2 | Zlib | Zip | Tar

  /** The library codecs as parameters: whether the optional brotli module
      imported, each library's decompressor (`None` when it raises) and
      compressor. Zip and tar are only ever read. */
  datatype Codecs = Codecs(
    hasBrotli: bool,
    decompress: (Library, seq<byte>) -> Option<seq<byte>>,
    compress: (Library, seq<byte>) -> seq<byte>)

  datatype Direction = Decoding | Encoding

  datatype Cause =
    | UnknownEncoding        // decode: no branch takes the name
    | UnsupportedEncoding    // encode: no branch takes the name
    | BrotliUnavailable
    | MalformedHex
    | LibraryFailed(library: Library)
    | InvalidShift           // encode: `int()` rejects the caesar shift

  /** `DecoderError("Failed to decode using <name>: ...")` and its encode twin. */
  datatype CodecError = CodecError(direction: Direction, encoding: string, cause: Cause)

  /** The branch of the if-chain a lower-cased name reaches. */
  datatype Step = Identity | UseLibrary(library: Library) | Hex | Rot | Caesar | Uu | Xx | NoBranch

  /** The branches of `Decoder.decode`, in their order. */
  function DecodeStep(name: string): Step
  {
    if name == "none" then Identity
    else if name == "base64" then UseLibrary(Base64)
    else if name == "ascii85" || name == "a85" then UseLibrary(Ascii85)
    else if name == "hex" || name == "hexadecimal" || name == "base16" then Hex
    else if name == "brotli" then UseLibrary(Brotli)
    else if name == "gzip" || name == "gz" then UseLibrary(Gzip)
    else if name == "bz2" || name == "bzip2" then UseLibrary(Bz2)
    else if name == "zlib" then UseLibrary(Zlib)
    else if name == "zip" then UseLibrary(Zip)
    else if name == "tar" then UseLibrary(Tar)
    else if StartsWith(name, "rot") then Rot
    else if StartsWith(name, "caesar") then Caesar
    else if name == "uuencode" || name == "uu" then Uu
    else if name == "xxencode" || name == "xx" then Xx
    else NoBranch
  }

  /** The branches of `encode`, in their order. */
  function EncodeStep(name: string): Step
  {
    if name == "none" then Identity
    else if name == "base64" then UseLibrary(Base64)
    else if name == "ascii85" || name == "a85" then UseLibrary(Ascii85)
    else if name == "hex" || name == "hexadecimal" || name == "base16" then Hex
    else if name == "brotli" then UseLibrary(Brotli)
    else if name == "gzip" || name == "gz" then UseLibrary(Gzip)
    else if name == "bz2" || name == "bzip2" then UseLibrary(Bz2)
    else if name == "zlib" then UseLibrary(Zlib)
    else if StartsWith(name, "rot") then Rot
    else if StartsWith(name, "caesar") then Caesar
    else NoBranch
  }

  /** The exact names the decoder accepts besides the `rot…` and `caesar…` families. */
  const DECODE_NAMES: set<string> :=
    {"none", "base64", "ascii85", "a85", "hex", "hexadecimal", "base16", "brotli",
     "gzip", "gz", "bz2", "bzip2", "zlib", "zip", "tar", "uuencode", "uu", "xxencode", "xx"}

  /** The exact names the encoder accepts besides the `rot…` and `caesar…` families. */
  const ENCODE_NAMES: set<string> :=
    {"none", "base64", "ascii85", "a85", "hex", "hexadecimal", "base16", "brotli",
     "gzip", "gz", "bz2", "bzip2", "zlib"}

  function Fail(direction: Direction, name: string, cause: Cause): Result<seq<byte>, CodecError>
  {
    Failure(CodecError(direction, name, cause))
  }

  /** `Decoder.decode(data, encoding)`: the name is lower-cased once. */
  function Decode(data: seq<byte>, encoding: string, codecs: Codecs): (r: Result<seq<byte>, CodecError>)
    ensures r.Failure? ==> r.error.direction == Decoding && r.error.encoding == Lower(encoding)
    ensures (r.Failure? && r.error.cause == UnknownEncoding) <==> DecodeStep(Lower(encoding)).NoBranch?
  {
    DecodeName(data, Lower(encoding), codecs)
  }

  /** `Decoder.decode` after `encoding = encoding.lower()`. */
  function DecodeName(data: seq<byte>, name: string, codecs: Codecs): (r: Result<seq<byte>, CodecError>)
    ensures r.Failure? ==> r.error.direction == Decoding && r.error.encoding == name
    ensures r.Failure? ==> DecodeStep(name).UseLibrary? || DecodeStep(name).Hex? || DecodeStep(name).NoBranch?
    ensures (r.Failure? && r.error.cause == UnknownEncoding) <==> DecodeStep(name).NoBranch?
  {
    match DecodeStep(name)
    case Identity => Success(data)
    case UseLibrary(lib) =>
      if lib == Brotli && !codecs.hasBrotli then Fail(Decoding, name, BrotliUnavailable)
      else
        (match codecs.decompress(lib, data)
         case None => Fail(Decoding, name, LibraryFailed(lib))
         case Some(out) => Success(out))
    case Hex =>
      (match HexDecode(data)
       case None => Fail(Decoding, name, MalformedHex)
       case Some(out) => Success(out))
    case Rot => Success(Rotate(data, RotShift(name)))
    case Caesar => Success(Rotate(data, -CaesarShift(name)))
    case Uu => Success(UuDecode(data))
    case Xx => Success(XxDecode(data))
    case NoBranch => Fail(Decoding, name, UnknownEncoding)
  }

  /** `encode(data, encoding)`: the name is lower-cased once. */
  function Encode(data: seq<byte>, encoding: string, codecs: Codecs): (r: Result<seq<byte>, CodecError>)
    ensures r.Failure? ==> r.error.direction == Encoding && r.error.encoding == Lower(encoding)
    ensures (r.Failure? && r.error.cause == UnsupportedEncoding) <==> EncodeStep(Lower(encoding)).NoBranch?
  {
    EncodeName(data, Lower(encoding), codecs)
  }

  /** `encode` after `encoding = encoding.lower()`. */
  function EncodeName(data: seq<byte>, name: string, codecs: Codecs): (r: Result<seq<byte>, CodecError>)
    ensures r.Failure? ==> r.error.direction == Encoding && r.error.encoding == name
    ensures (r.Failure? && r.error.cause == UnsupportedEncoding) <==> EncodeStep(name).NoBranch?
    ensures r.Failure? ==> EncodeStep(name).UseLibrary? || EncodeStep(name).Caesar? || EncodeStep(name).NoBranch?
  {
    match EncodeStep(name)
    case Identity => Success(data)
    case UseLibrary(lib) =>
      if lib == Brotli && !codecs.hasBrotli then Fail(Encoding, name, BrotliUnavailable)
      else Success(codecs.compress(lib, data))
    case Hex => Success(HexEncode(data))
    case Rot => Success(Rotate(data, RotShift(name)))
    case Caesar => CaesarEncode(data, name)
    case _ => Fail(Encoding, name, UnsupportedEncoding)
  }

  /** The caesar branch of `encode`: the shift after the colon is parsed (an
      error if it does not parse) and the data is shifted forward by it, or
      by 3 without a colon. The source gets there by handing the caesar
      decoder the name `caesar:<-shift>` (`caesar:-3` without a colon);
      `CaesarEncodeIsInvertedDecode` proves the two agree. */
  function CaesarEncode(data: seq<byte>, name: string): (r: Result<seq<byte>, CodecError>)
    ensures r.Failure? <==> ':' in name && ParseInt(AfterFirstColon(name).value).None?
    ensures r.Failure? ==> r.error == CodecError(Encoding, name, InvalidShift)
  {
    if ':' in name then
      match ParseInt(AfterFirstColon(name).value)
      case None => Fail(Encoding, name, InvalidShift)
      case Some(shift) => Success(Rotate(data, shift))
    else Success(Rotate(data, 3))
  }

  /** The name the encoder hands to the caesar decoder: `f"caesar:{-shift}"`
      for a parsed shift, `caesar:-3` without a colon. */
  function InvertedName(name: string): (r: Option<string>)
    ensures r.None? <==> ':' in name && ParseInt(AfterFirstColon(name).value).None?
  {
    if ':' in name then
      match ParseInt(AfterFirstColon(name).value)
      case None => None
      case Some(shift) => Some(NegatedShiftName(shift))
    else Some(DEFAULT_INVERTED)
  }

  const DEFAULT_INVERTED: string := "caesar:-3"

  function NegatedShiftName(shift: int): string
  {
    "caesar:" + IntToString(-shift)
  }

  /** Encoding with a name and decoding the result with the same name gives
      the input back. */
  predicate RoundTrips(data: seq<byte>, encoding: string, codecs: Codecs)
  {
    Encode(data, encoding, codecs).Success?
    && Decode(Encode(data, encoding, codecs).value, encoding, codecs) == Success(data)
  }

  /** A result with the error reduced to its cause. */
  function Outcome(r: Result<seq<byte>, CodecError>): Result<seq<byte>, Cause>
  {
    match r
    case Success(v) => Success(v)
    case Failure(e) => Failure(e.cause)
  }
}
