/** The hand-written uudecode and xxdecode of src/decoder.py. Both read the
    input as ASCII (other bytes dropped), split it on newlines, skip empty,
    `begin` and `end` lines, read a length character and then decode full
    groups of four characters into three bytes; a trailing partial group is
    ignored. Unlike the historical `uudecode`, no 6-bit mask is applied. */
module LineCodec {
  import opened Wrappers
  import opened Text
  import opened Bytes
  import opened Seqs

  /** 2 to the power `k` */
  function Pow2(k: nat): (p: nat)
    ensures p >= 1
  {
    if k == 0 then 1 else 2 * Pow2(k - 1)
  }

  /** Python's `|` on non-negative integers. */
  function BitOr(a: nat, b: nat): nat
    decreases a + b
  {
    if a == 0 then b
    else if b == 0 then a
    else 2 * BitOr(a / 2, b / 2) + (if a % 2 == 1 || b % 2 == 1 then 1 else 0)
  }

  lemma {:induction false} BitOrBelow(a: nat, b: nat, k: nat)
    requires a < Pow2(k) && b < Pow2(k)
    ensures BitOr(a, b) < Pow2(k)
    decreases k
  {
    if a != 0 && b != 0 {
      BitOrBelow(a / 2, b / 2, k - 1);
    }
  }

  /** OR of a multiple of `2^k` with a number below `2^k` is their sum. */
  lemma {:induction false} BitOrDisjoint(q: nat, b: nat, k: nat)
    requires b < Pow2(k)
    ensures BitOr(Pow2(k) * q, b) == Pow2(k) * q + b
    decreases k
  {
    var a := Pow2(k) * q;
    if k > 0 && a != 0 && b != 0 {
      var m := Pow2(k - 1) * q;
      assert a == 2 * m;
      assert a / 2 == m && a % 2 == 0;
      BitOrDisjoint(q, b / 2, k - 1);
    }
  }

  /** `(x | y) & 0xFF`: the low eight bits of an OR are the OR of the
      operands' low eight bits, the operands taken in two's complement. */
  function Or8(x: int, y: int): byte
  {
    BitOrBelow(x % 256, y % 256, 8);
    BitOr(x % 256, y % 256)
  }

  /** The three bytes of one group of four 6-bit (or wider) values, as the
      source computes them with shifts (`<<` multiplies, `>>` floors). */
  function Pack(c1: int, c2: int, c3: int, c4: int): (r: seq<byte>)
    ensures |r| == 3
  {
    [Or8(c1 * 4, c2 / 16), Or8(c2 * 16, c3 / 4), Or8(c3 * 64, c4)]
  }

  const BEGIN: seq<byte> := [98, 101, 103, 105, 110]   // "begin"
  const END: seq<byte> := [101, 110, 100]              // "end"

  /** The lines the decoders skip before reading a length character. */
  predicate IsFramingLine(line: seq<byte>)
  {
    line == [] || StartsWith(line, BEGIN) || StartsWith(line, END)
  }

  function Lines(data: seq<byte>): seq<seq<byte>>
  {
    SplitOn(DropNonAscii(data), [10])
  }

  // ---------------------------------------------------------------- uuencode

  function Min(a: int, b: int): int { if a < b then a else b }

  /** A full group of four more is one more group. */
  lemma GroupCount(n: nat)
    requires n >= 4
    ensures 3 * (n / 4) == 3 + 3 * ((n - 4) / 4)
  {
  }

  function UuValue(c: byte): int { c as int - 32 }

  /** The bytes of every full group of four characters in `body`. */
  function UuGroups(body: seq<byte>): (r: seq<byte>)
    ensures |r| == 3 * (|body| / 4)
  {
    if |body| < 4 then []
    else
      GroupCount(|body|);
      Pack(UuValue(body[0]), UuValue(body[1]), UuValue(body[2]), UuValue(body[3])) + UuGroups(body[4..])
  }

  /** A line the uudecoder reads: not framing, length character in 0..45. */
  predicate IsUuDataLine(line: seq<byte>)
  {
    !IsFramingLine(line) && 32 <= line[0] <= 77
  }

  /** What one line contributes to the uudecoded output. */
  function UuLine(line: seq<byte>): (r: seq<byte>)
    ensures !IsUuDataLine(line) ==> r == []
    ensures IsUuDataLine(line) ==> |r| == Min(line[0] - 32, 3 * ((|line| - 1) / 4))
    ensures IsUuDataLine(line) ==> r <= UuGroups(line[1..])
  {
    if IsFramingLine(line) then []
    else
      var n := UuValue(line[0]);
      if n < 0 || n > 45 then []
      else Take(UuGroups(line[1..]), n)
  }

  function UuLines(lines: seq<seq<byte>>): seq<byte>
  {
    if lines == [] then [] else UuLine(lines[0]) + UuLines(lines[1..])
  }

  /** `Decoder._decode_uuencode` as a function of the input. */
  function UuDecode(data: seq<byte>): seq<byte>
  {
    UuLines(Lines(data))
  }

  /** `Decoder._decode_uuencode`: the loop over lines and over groups. */
  method DecodeUuencode(data: seq<byte>) returns (r: seq<byte>)
    ensures r == UuDecode(data)
  {
    var lines := Lines(data);
    r := [];
    var k := 0;
    while k < |lines|
      invariant 0 <= k <= |lines|
      invariant r + UuLines(lines[k..]) == UuLines(lines)
    {
      var part := DecodeUuLine(lines[k]);
      UuLinesStep(lines, k, r, part);
      r := r + part;
      k := k + 1;
    }
  }

  /** The body of the line loop of `Decoder._decode_uuencode`. */
  method DecodeUuLine(line: seq<byte>) returns (part: seq<byte>)
    ensures part == UuLine(line)
  {
    part := [];
    if !IsFramingLine(line) {
      var n := line[0] as int - 32;
      if 0 <= n <= 45 {
        var decoded := DecodeUuGroups(line[1..]);
        part := Take(decoded, n);
      }
    }
  }

  /** The inner loop of `Decoder._decode_uuencode` over groups of four. */
  method DecodeUuGroups(body: seq<byte>) returns (decoded: seq<byte>)
    ensures decoded == UuGroups(body)
  {
    decoded := [];
    var i := 0;
    while i + 4 <= |body|
      invariant 0 <= i <= |body|
      invariant decoded + UuGroups(body[i..]) == UuGroups(body)
    {
      var c1, c2, c3, c4 := UuValue(body[i]), UuValue(body[i + 1]), UuValue(body[i + 2]), UuValue(body[i + 3]);
      UuGroupsStep(body, i);
      decoded := decoded + Pack(c1, c2, c3, c4);
      i := i + 4;
    }
  }

  /** One turn of the line loop keeps its invariant. */
  lemma UuLinesStep(lines: seq<seq<byte>>, k: nat, r: seq<byte>, part: seq<byte>)
    requires k < |lines| && r + UuLines(lines[k..]) == UuLines(lines) && part == UuLine(lines[k])
    ensures (r + part) + UuLines(lines[k + 1..]) == UuLines(lines)
  {
    assert lines[k..][1..] == lines[k + 1..];
    AppendAssoc(r, part, UuLines(lines[k + 1..]));
  }

  lemma UuGroupsStep(body: seq<byte>, i: nat)
    requires i + 4 <= |body|
    ensures UuGroups(body[i..]) == Pack(UuValue(body[i]), UuValue(body[i + 1]), UuValue(body[i + 2]), UuValue(body[i + 3])) + UuGroups(body[i + 4..])
  {
    assert body[i..][4..] == body[i + 4..];
  }

  /** A trailing partial group does not change what a body decodes to. */
  lemma {:induction false} UuGroupsIgnorePartial(body: seq<byte>, tail: seq<byte>)
    requires |body| % 4 == 0 && |tail| < 4
    ensures UuGroups(body + tail) == UuGroups(body)
    decreases |body|
  {
    if |body| >= 4 {
      assert (body + tail)[4..] == body[4..] + tail;
      UuGroupsIgnorePartial(body[4..], tail);
    } else {
      assert body + tail == tail;
    }
  }

  lemma {:induction false} UuLinesAppend(a: seq<seq<byte>>, b: seq<seq<byte>>)
    ensures UuLines(a + b) == UuLines(a) + UuLines(b)
    decreases |a|
  {
    if a == [] {
      assert a + b == b;
    } else {
      assert (a + b)[1..] == a[1..] + b;
      UuLinesAppend(a[1..], b);
    }
  }

  // -------------------------------------------- the historical uuencode line

  /** The historical encoding of a 6-bit value: the value plus 32. */
  function UuChar(v: nat): byte
    requires v < 64
  {
    32 + v
  }

  /** The four 6-bit values an encoder writes for three bytes. */
  function Sextets(x: byte, y: byte, z: byte): (v: seq<nat>)
    ensures |v| == 4 && forall i :: 0 <= i < 4 ==> v[i] < 64
  {
    [x / 4, (x % 4) * 16 + y / 16, (y % 16) * 4 + z / 64, z % 64]
  }

  /** `b` padded with zero bytes to a multiple of three. */
  function Padded(b: seq<byte>): (r: seq<byte>)
    ensures |r| % 3 == 0 && |b| <= |r| < |b| + 3 && r[..|b|] == b
  {
    if |b| % 3 == 0 then b
    else if |b| % 3 == 1 then b + [0, 0]
    else b + [0]
  }

  function UuEncodeGroups(b: seq<byte>): (r: seq<byte>)
    requires |b| % 3 == 0
    ensures |r| == 4 * (|b| / 3)
    ensures forall i :: 0 <= i < |r| ==> 32 <= r[i] < 96
  {
    if b == [] then []
    else
      var v := Sextets(b[0], b[1], b[2]);
      [UuChar(v[0]), UuChar(v[1]), UuChar(v[2]), UuChar(v[3])] + UuEncodeGroups(b[3..])
  }

  /** One line of the historical format for at most 45 bytes: the length
      character, then the groups, zero-padded to a multiple of three. */
  function UuEncodeLine(b: seq<byte>): (line: seq<byte>)
    requires |b| <= 45
    ensures |line| >= 1 && forall i :: 0 <= i < |line| ==> 32 <= line[i] < 96
  {
    [UuChar(|b|)] + UuEncodeGroups(Padded(b))
  }

  lemma PackUnpacks(x: byte, y: byte, z: byte, c1: int, c2: int, c3: int, c4: int)
    requires c1 == x / 4 && c2 == (x % 4) * 16 + y / 16 && c3 == (y % 16) * 4 + z / 64 && c4 == z % 64
    ensures Pack(c1, c2, c3, c4) == [x, y, z]
  {
    FirstByte(x, y, c1, c2);
    SecondByte(x, y, z, c2, c3);
    ThirdByte(y, z, c3, c4);
  }

  lemma FirstByte(x: byte, y: byte, c1: int, c2: int)
    requires c1 == x / 4 && c2 == (x % 4) * 16 + y / 16
    ensures Or8(c1 * 4, c2 / 16) == x
  {
    assert Pow2(2) == 4;
    assert c1 * 4 % 256 == Pow2(2) * (x / 4);
    assert c2 / 16 % 256 == x % 4;
    BitOrDisjoint(x / 4, x % 4, 2);
  }

  lemma SecondByte(x: byte, y: byte, z: byte, c2: int, c3: int)
    requires c2 == (x % 4) * 16 + y / 16 && c3 == (y % 16) * 4 + z / 64
    ensures Or8(c2 * 16, c3 / 4) == y
  {
    assert Pow2(4) == 16;
    var lo := x % 4;
    var hi := y / 16;
    assert c2 * 16 == 256 * lo + 16 * hi;
    assert c2 * 16 % 256 == Pow2(4) * hi;
    assert c3 / 4 % 256 == y % 16;
    BitOrDisjoint(hi, y % 16, 4);
  }

  lemma ThirdByte(y: byte, z: byte, c3: int, c4: int)
    requires c3 == (y % 16) * 4 + z / 64 && c4 == z % 64
    ensures Or8(c3 * 64, c4) == z
  {
    assert Pow2(6) == 64;
    var lo := y % 16;
    var hi := z / 64;
    assert c3 * 64 == 256 * lo + 64 * hi;
    assert c3 * 64 % 256 == Pow2(6) * hi;
    assert c4 % 256 == z % 64;
    BitOrDisjoint(hi, z % 64, 6);
  }

  lemma {:induction false} UuGroupsOfEncoded(b: seq<byte>)
    requires |b| % 3 == 0
    ensures UuGroups(UuEncodeGroups(b)) == b
    decreases |b|
  {
    if b != [] {
      var e := UuEncodeGroups(b);
      assert e[4..] == UuEncodeGroups(b[3..]);
      PackUnpacks(b[0], b[1], b[2], UuValue(e[0]), UuValue(e[1]), UuValue(e[2]), UuValue(e[3]));
      UuGroupsOfEncoded(b[3..]);
      assert b == [b[0], b[1], b[2]] + b[3..];
    }
  }

  /** A line written by the historical encoder decodes to the bytes it holds. */
  lemma UuLineOfEncoded(b: seq<byte>)
    requires |b| <= 45
    ensures UuLine(UuEncodeLine(b)) == b
  {
    var line := UuEncodeLine(b);
    assert line[1..] == UuEncodeGroups(Padded(b));
    assert !StartsWith(line, BEGIN) && !StartsWith(line, END) by {
      assert line[0] < 78;
    }
    UuGroupsOfEncoded(Padded(b));
  }

  /** Newline-joined historical lines decode to the concatenation of their bytes. */
  lemma {:induction false} UuDecodeOfEncodedLines(blocks: seq<seq<byte>>)
    requires |blocks| >= 1
    requires forall i :: 0 <= i < |blocks| ==> |blocks[i]| <= 45
    ensures UuDecode(Join(EncodeLines(blocks), [10])) == Concat(blocks)
  {
    var lines := EncodeLines(blocks);
    var text := Join(lines, [10]);
    JoinAscii(lines);
    SplitOnJoin(lines, 10);
    UuLinesOfEncoded(blocks);
  }

  function EncodeLines(blocks: seq<seq<byte>>): (lines: seq<seq<byte>>)
    requires forall i :: 0 <= i < |blocks| ==> |blocks[i]| <= 45
    ensures |lines| == |blocks|
  {
    seq(|blocks|, i requires 0 <= i < |blocks| => UuEncodeLine(blocks[i]))
  }

  lemma {:induction false} UuLinesOfEncoded(blocks: seq<seq<byte>>)
    requires forall i :: 0 <= i < |blocks| ==> |blocks[i]| <= 45
    ensures UuLines(EncodeLines(blocks)) == Concat(blocks)
    decreases |blocks|
  {
    if blocks != [] {
      UuLineOfEncoded(blocks[0]);
      assert EncodeLines(blocks)[1..] == EncodeLines(blocks[1..]);
      UuLinesOfEncoded(blocks[1..]);
    }
  }

  lemma {:induction false} JoinAscii(lines: seq<seq<byte>>)
    requires forall i, j :: 0 <= i < |lines| && 0 <= j < |lines[i]| ==> 32 <= lines[i][j] < 96
    ensures DropNonAscii(Join(lines, [10])) == Join(lines, [10])
    ensures forall i, j :: 0 <= i < |lines| && 0 <= j < |lines[i]| ==> lines[i][j] != 10
  {
    JoinBelow(lines, 10, 128);
  }

  lemma {:induction false} JoinBelow(lines: seq<seq<byte>>, sep: byte, bound: int)
    requires sep < bound
    requires forall i, j :: 0 <= i < |lines| && 0 <= j < |lines[i]| ==> lines[i][j] < bound
    ensures forall k :: 0 <= k < |Join<byte>(lines, [sep])| ==> Join<byte>(lines, [sep])[k] < bound
    decreases |lines|
  {
    if |lines| == 1 {
      assert forall j :: 0 <= j < |lines[0]| ==> lines[0][j] < bound;
    } else if |lines| > 1 {
      var rest := Join(lines[1..], [sep]);
      assert forall i, j :: 0 <= i < |lines[1..]| && 0 <= j < |lines[1..][i]| ==> lines[1..][i][j] < bound by {
        forall i, j | 0 <= i < |lines[1..]| && 0 <= j < |lines[1..][i]|
          ensures lines[1..][i][j] < bound
        {
          assert lines[1..][i] == lines[i + 1];
        }
      }
      JoinBelow(lines[1..], sep, bound);
      var joined := Join(lines, [sep]);
      assert joined == lines[0] + [sep] + rest;
      forall k | 0 <= k < |joined|
        ensures joined[k] < bound
      {
        if k < |lines[0]| {
          assert joined[k] == lines[0][k];
        } else if k > |lines[0]| {
          assert joined[k] == rest[k - |lines[0]| - 1];
        } else {
          assert joined[k] == sep;
        }
      }
    }
  }

  /** A group of four backquotes, which many encoders write for zero, does
      not decode to zero bytes here, because no 6-bit mask is applied. */
  lemma BackquoteGroupIsNotZero()
    ensures UuLine([35, 96, 96, 96, 96]) == [4, 16, 64]
  {
    var line: seq<byte> := [35, 96, 96, 96, 96];
    assert !StartsWith(line, BEGIN) && !StartsWith(line, END);
    assert line[1..][4..] == [];
    assert Or8(256, 4) == 4 && Or8(1024, 16) == 16 && Or8(4096, 64) == 64;
  }

  // ---------------------------------------------------------------- xxencode

  /** The `i`-th character of XX_CHARS,
      "+-0123456789ABCDEFGHIJKLMNOPQRSTUVWXYZabcdefghijklmnopqrstuvwxyz". */
  function XxChar(v: nat): (c: byte)
    requires v < 64
  {
    if v == 0 then 43
    else if v == 1 then 45
    else if v < 12 then 48 + (v - 2)
    else if v < 38 then 65 + (v - 12)
    else 97 + (v - 38)
  }

  /** The first `n` characters of the alphabet. */
  function XxTable(n: nat): (t: seq<byte>)
    requires n <= 64
    ensures |t| == n && forall v :: 0 <= v < n ==> t[v] == XxChar(v)
  {
    if n == 0 then [] else XxTable(n - 1) + [XxChar(n - 1)]
  }

  const XX_CHARS: seq<byte> := XxTable(64)

  /** `XX_CHARS.index(c)`, with `None` where `index` raises `ValueError`. */
  function XxIndex(c: byte): (r: Option<nat>)
    ensures r.Some? ==> r.value < 64 && XxChar(r.value) == c
  {
    if c == 43 then Some(0)
    else if c == 45 then Some(1)
    else if 48 <= c <= 57 then Some(c as int - 48 + 2)
    else if 65 <= c <= 90 then Some(c as int - 65 + 12)
    else if 97 <= c <= 122 then Some(c as int - 97 + 38)
    else None
  }

  /** `XxIndex` is the position of the first occurrence in the alphabet, and
      `None` exactly for the characters outside it. */
  lemma XxIndexIsIndex(c: byte)
    ensures XxIndex(c).Some? ==> XX_CHARS[XxIndex(c).value] == c
    ensures XxIndex(c).Some? ==> forall j :: 0 <= j < XxIndex(c).value ==> XX_CHARS[j] != c
    ensures XxIndex(c).None? <==> forall j :: 0 <= j < 64 ==> XX_CHARS[j] != c
  {
  }

  /** The bytes of every full group, or `None` when a character of a full
      group is not in the alphabet. */
  function XxGroups(body: seq<byte>): (r: Option<seq<byte>>)
    ensures r.Some? ==> |r.value| == 3 * (|body| / 4)
  {
    if |body| < 4 then Some([])
    else
      GroupCount(|body|);
      var i1, i2, i3, i4 := XxIndex(body[0]), XxIndex(body[1]), XxIndex(body[2]), XxIndex(body[3]);
      if i1.None? || i2.None? || i3.None? || i4.None? then None
      else
        match XxGroups(body[4..])
        case None => None
        case Some(rest) => Some(Pack(i1.value, i2.value, i3.value, i4.value) + rest)
  }

  /** What one line contributes to the xxdecoded output. */
  function XxLine(line: seq<byte>): (r: seq<byte>)
    ensures IsFramingLine(line) || XxIndex(line[0]).None? || XxGroups(line[1..]).None? ==> r == []
    ensures !IsFramingLine(line) && XxIndex(line[0]).Some? && XxGroups(line[1..]).Some? ==>
      |r| == Min(XxIndex(line[0]).value, 3 * ((|line| - 1) / 4)) && r <= XxGroups(line[1..]).value
  {
    if IsFramingLine(line) then []
    else
      match XxIndex(line[0])
      case None => []
      case Some(n) =>
        match XxGroups(line[1..])
        case None => []
        case Some(decoded) => Take(decoded, n)
  }

  function XxLines(lines: seq<seq<byte>>): seq<byte>
  {
    if lines == [] then [] else XxLine(lines[0]) + XxLines(lines[1..])
  }

  /** `Decoder._decode_xxencode` as a function of the input. */
  function XxDecode(data: seq<byte>): seq<byte>
  {
    XxLines(Lines(data))
  }

  function Prepend(prefix: seq<byte>, rest: Option<seq<byte>>): Option<seq<byte>>
  {
    match rest
    case None => None
    case Some(r) => Some(prefix + r)
  }

  /** `Decoder._decode_xxencode`: a character outside the alphabet raises
      inside the line's `try`, so the line contributes nothing at all. */
  method DecodeXxencode(data: seq<byte>) returns (r: seq<byte>)
    ensures r == XxDecode(data)
  {
    var lines := Lines(data);
    r := [];
    var k := 0;
    while k < |lines|
      invariant 0 <= k <= |lines|
      invariant r + XxLines(lines[k..]) == XxLines(lines)
    {
      var part := DecodeXxLine(lines[k]);
      XxLinesStep(lines, k, r, part);
      r := r + part;
      k := k + 1;
    }
  }

  /** The body of the line loop of `Decoder._decode_xxencode`. */
  method DecodeXxLine(line: seq<byte>) returns (part: seq<byte>)
    ensures part == XxLine(line)
  {
    part := [];
    if !IsFramingLine(line) {
      var length := XxIndex(line[0]);
      if length.Some? {
        var decoded := DecodeXxGroups(line[1..]);
        if decoded.Some? {
          part := Take(decoded.value, length.value);
        }
      }
    }
  }

  /** The inner loop of `Decoder._decode_xxencode`; `None` stands for the
      `ValueError` that abandons the line. */
  method DecodeXxGroups(body: seq<byte>) returns (decoded: Option<seq<byte>>)
    ensures decoded == XxGroups(body)
  {
    var bytes := [];
    var i := 0;
    assert body[0..] == body;
    assert XxGroups(body).Some? ==> [] + XxGroups(body).value == XxGroups(body).value;
    while i + 4 <= |body|
      invariant 0 <= i <= |body|
      invariant XxGroups(body) == Prepend(bytes, XxGroups(body[i..]))
    {
      var c1, c2, c3, c4 := XxIndex(body[i]), XxIndex(body[i + 1]), XxIndex(body[i + 2]), XxIndex(body[i + 3]);
      XxGroupsStep(body, i);
      if c1.None? || c2.None? || c3.None? || c4.None? {
        return None;
      }
      var group := Pack(c1.value, c2.value, c3.value, c4.value);
      PrependTwice(bytes, group, XxGroups(body[i + 4..]));
      bytes := bytes + group;
      i := i + 4;
    }
    assert bytes + [] == bytes;
    return Some(bytes);
  }

  lemma XxGroupsStep(body: seq<byte>, i: nat)
    requires i + 4 <= |body|
    ensures var c1, c2, c3, c4 := XxIndex(body[i]), XxIndex(body[i + 1]), XxIndex(body[i + 2]), XxIndex(body[i + 3]);
      XxGroups(body[i..]) ==
        if c1.None? || c2.None? || c3.None? || c4.None? then None
        else Prepend(Pack(c1.value, c2.value, c3.value, c4.value), XxGroups(body[i + 4..]))
  {
    assert body[i..][4..] == body[i + 4..];
  }

  lemma PrependTwice(a: seq<byte>, b: seq<byte>, rest: Option<seq<byte>>)
    ensures Prepend(a, Prepend(b, rest)) == Prepend(a + b, rest)
  {
    if rest.Some? {
      assert a + (b + rest.value) == (a + b) + rest.value;
    }
  }

  /** One turn of the line loop keeps its invariant. */
  lemma XxLinesStep(lines: seq<seq<byte>>, k: nat, r: seq<byte>, part: seq<byte>)
    requires k < |lines| && r + XxLines(lines[k..]) == XxLines(lines) && part == XxLine(lines[k])
    ensures (r + part) + XxLines(lines[k + 1..]) == XxLines(lines)
  {
    assert lines[k..][1..] == lines[k + 1..];
    AppendAssoc(r, part, XxLines(lines[k + 1..]));
  }

  function XxEncodeGroups(b: seq<byte>): (r: seq<byte>)
    requires |b| % 3 == 0
    ensures |r| == 4 * (|b| / 3)
    ensures forall i :: 0 <= i < |r| ==> XxIndex(r[i]).Some?
  {
    if b == [] then []
    else
      var v := Sextets(b[0], b[1], b[2]);
      [XxChar(v[0]), XxChar(v[1]), XxChar(v[2]), XxChar(v[3])] + XxEncodeGroups(b[3..])
  }

  /** One xxencoded line for at most 45 bytes. */
  function XxEncodeLine(b: seq<byte>): (line: seq<byte>)
    requires |b| <= 45
    ensures |line| >= 1
  {
    [XxChar(|b|)] + XxEncodeGroups(Padded(b))
  }

  lemma XxIndexOfChar(v: nat)
    requires v < 64
    ensures XxIndex(XxChar(v)) == Some(v)
  {
  }

  lemma {:induction false} XxGroupsOfEncoded(b: seq<byte>)
    requires |b| % 3 == 0
    ensures XxGroups(XxEncodeGroups(b)) == Some(b)
    decreases |b|
  {
    if b != [] {
      var e := XxEncodeGroups(b);
      var x, y, z := b[0], b[1], b[2];
      assert e[4..] == XxEncodeGroups(b[3..]);
      XxIndexOfChar(x / 4);
      XxIndexOfChar((x % 4) * 16 + y / 16);
      XxIndexOfChar((y % 16) * 4 + z / 64);
      XxIndexOfChar(z % 64);
      PackUnpacks(x, y, z, x / 4, (x % 4) * 16 + y / 16, (y % 16) * 4 + z / 64, z % 64);
      XxGroupsOfEncoded(b[3..]);
      assert b == [x, y, z] + b[3..];
    }
  }

  /** An xxencoded line decodes to the bytes it holds, unless it happens to
      spell `begin` or `end` (a length of 39 or 42 bytes can), which the
      decoder skips. */
  lemma XxLineOfEncoded(b: seq<byte>)
    requires |b| <= 45
    requires !IsFramingLine(XxEncodeLine(b))
    ensures XxLine(XxEncodeLine(b)) == b
  {
    var line := XxEncodeLine(b);
    assert line[1..] == XxEncodeGroups(Padded(b));
    XxIndexOfChar(|b|);
    XxGroupsOfEncoded(Padded(b));
  }

  /** A character outside the alphabet in a full group drops the whole line,
      including the groups before it. */
  lemma XxBadCharacterDropsLine(line: seq<byte>, k: nat)
    requires !IsFramingLine(line) && 1 <= k < 1 + 4 * ((|line| - 1) / 4)
    requires XxIndex(line[k]).None?
    ensures XxLine(line) == []
  {
    XxGroupsFailAt(line[1..], k - 1);
  }

  lemma {:induction false} XxGroupsFailAt(body: seq<byte>, k: nat)
    requires k < 4 * (|body| / 4)
    requires XxIndex(body[k]).None?
    ensures XxGroups(body) == None
    decreases |body|
  {
    if k >= 4 {
      assert body[4..][k - 4] == body[k];
      XxGroupsFailAt(body[4..], k - 4);
    }
  }
}
