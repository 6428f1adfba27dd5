/** `Parser.parse_chunk_size` of src/parser.py: a size such as `64`, `1KB`,
    `10MB` or `2GB`, read after `strip()` and `upper()`. The text must be a
    run of digits, optional whitespace and a unit of the shape `[KMGT]?B?`;
    no unit, `K` and `KB` mean KiB, `M`/`MB` MiB and `G`/`GB` GiB, while
    `T`, `TB` and `B` fit the pattern but are rejected. `NONE` means 64 KiB. */
module ChunkSize {
  import opened Wrappers
  import opened Text

  datatype ChunkError =
    | InvalidFormat(text: string)   // the regex does not match the normalised text
    | InvalidUnit(unit: string)     // the unit fits `[KMGT]?B?` but has no multiplier

  const KIB: nat := 1024
  const MIB: nat := 1024 * 1024
  const GIB: nat := 1024 * 1024 * 1024
  const DEFAULT_SIZE: nat := 65536

  /** The units the group `([KMGT]?B?)?` can match: nothing, one of
      `K`, `M`, `G`, `T`, `B`, or one of the first four followed by `B`. */
  predicate IsUnitShape(unit: string)
  {
    || unit == []
    || (|unit| == 1 && (IsScale(unit[0]) || unit[0] == 'B'))
    || (|unit| == 2 && IsScale(unit[0]) && unit[1] == 'B')
  }

  predicate IsScale(c: char) { c == 'K' || c == 'M' || c == 'G' || c == 'T' }

  /** The `multipliers` dictionary: `None` for the shapes it has no key for
      (`T`, `TB` and `B`). */
  function Multiplier(unit: string): (m: Option<nat>)
    requires IsUnitShape(unit)
    ensures m.Some? ==> m.value == KIB || m.value == MIB || m.value == GIB
  {
    if unit == [] || unit[0] == 'K' then Some(KIB)
    else if unit[0] == 'M' then Some(MIB)
    else if unit[0] == 'G' then Some(GIB)
    else None
  }

  /** Length of the leading run of characters satisfying `IsDigit`. */
  function DigitRun(s: string): (n: nat)
    ensures n <= |s|
    ensures forall i :: 0 <= i < n ==> IsDigit(s[i])
    ensures n < |s| ==> !IsDigit(s[n])
  {
    if s != [] && IsDigit(s[0]) then 1 + DigitRun(s[1..]) else 0
  }

  /** Length of the leading run of whitespace. */
  function SpaceRun(s: string): (n: nat)
    ensures n <= |s|
    ensures forall i :: 0 <= i < n ==> IsSpace(s[i])
    ensures n < |s| ==> !IsSpace(s[n])
  {
    if s != [] && IsSpace(s[0]) then 1 + SpaceRun(s[1..]) else 0
  }

  /** `parse_chunk_size(size_str)`: `Failure` where it raises `ValueError`. */
  function ParseChunkSize(sizeText: string): (r: Result<nat, ChunkError>)
  {
    ParseNormalised(Upper(Strip(sizeText)))
  }

  /** The body of `parse_chunk_size` after `size_str.strip().upper()`. */
  function ParseNormalised(s: string): (r: Result<nat, ChunkError>)
  {
    if s == "NONE" then Success(DEFAULT_SIZE)
    else
      var d := DigitRun(s);
      var rest := s[d..];
      var unit := rest[SpaceRun(rest)..];
      if d == 0 || !IsUnitShape(unit) then Failure(InvalidFormat(s))
      else match Multiplier(unit)
        case None => Failure(InvalidUnit(unit))
        case Some(m) => Success(DigitsValue(s[..d]) * m)
  }

  /** Text of the shape `^(\d+)\s*([KMGT]?B?)?$`, cut into its three groups. */
  predicate Shaped(s: string, digits: string, space: string, unit: string)
  {
    s == digits + space + unit && digits != [] && AllDigits(digits) && AllSpace(space)
    && IsUnitShape(unit)
  }

  lemma DigitRunOfDigits(digits: string, t: string)
    requires AllDigits(digits)
    requires t == [] || !IsDigit(t[0])
    ensures DigitRun(digits + t) == |digits|
    decreases |digits|
  {
    if digits != [] {
      assert (digits + t)[1..] == digits[1..] + t;
      DigitRunOfDigits(digits[1..], t);
    } else {
      assert digits + t == t;
    }
  }

  lemma SpaceRunOfSpace(space: string, t: string)
    requires AllSpace(space)
    requires t == [] || !IsSpace(t[0])
    ensures SpaceRun(space + t) == |space|
    decreases |space|
  {
    if space != [] {
      assert (space + t)[1..] == space[1..] + t;
      SpaceRunOfSpace(space[1..], t);
    } else {
      assert space + t == t;
    }
  }

  /** A shaped text is read as its digits times the unit's multiplier, or
      rejected for its unit. */
  lemma ParseShaped(s: string, digits: string, space: string, unit: string)
    requires Shaped(s, digits, space, unit)
    ensures ParseNormalised(s) ==
      match Multiplier(unit)
      case None => Failure(InvalidUnit(unit))
      case Some(m) => Success(DigitsValue(digits) * m)
  {
    assert unit == [] || (!IsDigit(unit[0]) && !IsSpace(unit[0]));
    var tail := space + unit;
    assert s == digits + tail;
    assert tail == [] || !IsDigit(tail[0]) by {
      if space != [] { assert tail[0] == space[0]; } else { assert tail == unit; }
    }
    DigitRunOfDigits(digits, tail);
    assert s[..|digits|] == digits;
    assert s[|digits|..] == tail;
    SpaceRunOfSpace(space, unit);
    assert tail[|space|..] == unit;
    assert s != "NONE" by { assert IsDigit(s[0]); }
  }

  /** Every text the parser accepts is `NONE` or shaped, and its value is the
      digits times the unit's multiplier. */
  lemma ParseSound(s: string, n: nat)
    requires ParseNormalised(s) == Success(n)
    ensures s == "NONE" ==> n == DEFAULT_SIZE
    ensures s != "NONE" ==>
      exists digits, space, unit :: Shaped(s, digits, space, unit)
        && Multiplier(unit).Some? && n == DigitsValue(digits) * Multiplier(unit).value
  {
    if s != "NONE" {
      var d := DigitRun(s);
      var rest := s[d..];
      var w := SpaceRun(rest);
      assert s == s[..d] + rest[..w] + rest[w..];
      assert AllDigits(s[..d]);
      assert AllSpace(rest[..w]);
      assert Shaped(s, s[..d], rest[..w], rest[w..]);
    }
  }

  /** Text that is neither `NONE` nor shaped is an `InvalidFormat` error
      naming the normalised text. */
  lemma ParseRejectsUnshaped(s: string)
    requires s != "NONE"
    requires forall digits, space, unit :: !Shaped(s, digits, space, unit)
    ensures ParseNormalised(s) == Failure(InvalidFormat(s))
  {
    var d := DigitRun(s);
    var rest := s[d..];
    var w := SpaceRun(rest);
    var unit := rest[w..];
    if d != 0 && IsUnitShape(unit) {
      assert s == s[..d] + rest[..w] + unit;
      assert AllDigits(s[..d]);
      assert AllSpace(rest[..w]);
      assert Shaped(s, s[..d], rest[..w], unit);
      assert false;
    }
  }

  /** Surrounding whitespace is ignored: a padded text parses as its
      upper-cased core. */
  lemma ParsePadded(w1: string, t: string, w2: string)
    requires AllSpace(w1) && AllSpace(w2)
    requires t == [] || (!IsSpace(t[0]) && !IsSpace(t[|t| - 1]))
    ensures ParseChunkSize(w1 + t + w2) == ParseNormalised(Upper(t))
  {
    StripPadded(w1, t, w2);
  }

  lemma UpperOfLower(s: string)
    ensures Upper(Lower(s)) == Upper(s)
  {
    assert forall i :: 0 <= i < |s| ==> Upper(Lower(s))[i] == Upper(s)[i];
  }

  lemma UpperIdempotent(s: string)
    ensures Upper(Upper(s)) == Upper(s)
  {
    assert forall i :: 0 <= i < |s| ==> Upper(Upper(s))[i] == Upper(s)[i];
  }

  /** Letter case is ignored. */
  lemma ParseIgnoresCase(t: string)
    ensures ParseChunkSize(Lower(t)) == ParseChunkSize(t)
    ensures ParseChunkSize(Upper(t)) == ParseChunkSize(t)
  {
    StripLower(t);
    StripUpper(t);
    UpperOfLower(Strip(t));
    UpperIdempotent(Strip(t));
  }

  lemma ParseShapedText(t: string, digits: string, space: string, unit: string)
    requires Shaped(t, digits, space, unit) && !IsSpace(t[|t| - 1])
    requires forall i :: 0 <= i < |t| ==> !IsLowerLetter(t[i])
    ensures ParseChunkSize(t) ==
      match Multiplier(unit)
      case None => Failure(InvalidUnit(unit))
      case Some(m) => Success(DigitsValue(digits) * m)
  {
    assert t[0] == digits[0];
    StripUnpadded(t);
    assert Upper(t) == t;
    ParseShaped(t, digits, space, unit);
  }

  /** Digits followed directly by a unit, with no lower-case letter. */
  lemma ParseNumberUnit(digits: string, unit: string)
    requires digits != [] && AllDigits(digits) && IsUnitShape(unit)
    requires forall i :: 0 <= i < |unit| ==> !IsLowerLetter(unit[i])
    ensures ParseChunkSize(digits + unit) ==
      match Multiplier(unit)
      case None => Failure(InvalidUnit(unit))
      case Some(m) => Success(DigitsValue(digits) * m)
  {
    var t := digits + unit;
    assert Shaped(t, digits, [], unit) by { assert t == digits + [] + unit; }
    assert !IsSpace(t[|t| - 1]) by {
      if unit == [] { assert t[|t| - 1] == digits[|digits| - 1]; }
      else { assert t[|t| - 1] == unit[|unit| - 1]; }
    }
    assert forall i :: 0 <= i < |t| ==> !IsLowerLetter(t[i]) by {
      forall i | 0 <= i < |t| ensures !IsLowerLetter(t[i]) {
        if i < |digits| { assert t[i] == digits[i]; } else { assert t[i] == unit[i - |digits|]; }
      }
    }
    ParseShapedText(t, digits, [], unit);
  }

  /** A bare number counts kilobytes: `64` is 65536 bytes. */
  lemma ParseBareNumber(t: string)
    requires t == "64"
    ensures ParseChunkSize(t) == Success(65536)
  {
    var d := t;
    DigitsValueSnoc("6", '4');
    assert d == "6" + ['4'];
    assert t == d + "";
    ParseNumberUnit(d, "");
  }

  /** `1KB` is 1024 bytes. */
  lemma ParseKilobytes(t: string)
    requires t == "1KB"
    ensures ParseChunkSize(t) == Success(1024)
  {
    assert t == "1" + "KB";
    ParseNumberUnit("1", "KB");
  }

  /** `10MB` is 10485760 bytes. */
  lemma ParseMegabytes(t: string)
    requires t == "10MB"
    ensures ParseChunkSize(t) == Success(10485760)
  {
    var d, u := t[..2], t[2..];
    assert d == "10" && u == "MB" && t == d + u;
    DigitsValueSnoc("1", '0');
    assert d == "1" + ['0'];
    assert DigitsValue(d) == 10;
    assert Multiplier(u) == Some(MIB);
    ParseNumberUnit(d, u);
  }

  /** `2GB` is 2147483648 bytes. */
  lemma ParseGigabytes(t: string)
    requires t == "2GB"
    ensures ParseChunkSize(t) == Success(2147483648)
  {
    var d, u := t[..1], t[1..];
    assert d == "2" && u == "GB" && t == d + u;
    assert DigitsValue(d) == 2 by { assert d[..0] == []; }
    assert Multiplier(u) == Some(GIB);
    ParseNumberUnit(d, u);
  }

  /** `1TB` fits the pattern but has no multiplier. */
  lemma ParseTerabytesRejected(t: string)
    requires t == "1TB"
    ensures ParseChunkSize(t) == Failure(InvalidUnit("TB"))
  {
    var d, u := t[..1], t[1..];
    assert d == "1" && u == "TB" && t == d + u;
    assert Multiplier(u) == None;
    ParseNumberUnit(d, u);
  }

  /** `none`, in any case and with any padding, is the 64 KiB default. */
  lemma ParseNone(w1: string, t: string, w2: string)
    requires AllSpace(w1) && AllSpace(w2) && Upper(t) == "NONE"
    ensures ParseChunkSize(w1 + t + w2) == Success(DEFAULT_SIZE)
  {
    assert |t| == 4;
    assert !IsSpace(t[0]) && !IsSpace(t[3]) by {
      assert Upper(t)[0] == 'N' && Upper(t)[3] == 'E';
    }
    ParsePadded(w1, t, w2);
  }
}
