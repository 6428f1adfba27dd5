/** Record splitting in `Parser._parse_records` of src/parser.py: the
    separator dispatch, and the byte cursor that gives every non-blank
    segment its `[start, end)` range. */
module Records {
  import opened Wrappers
  import opened Text
  import opened Seqs

  /** The two-character strings `r'\n'` and `r'\t'` (backslash, letter). */
  const ESCAPED_NEWLINE: string := ['\\', 'n']
  const ESCAPED_TAB: string := ['\\', 't']

  /** `str.split('')` raises `ValueError: empty separator`. */
  datatype SplitError = EmptySeparator

  /** `re.split(pattern, text)` is outside the model: the given function
      returns its pieces, or `None` where the pattern does not compile. */
  type RegexSplit = (string, string) -> Option<seq<string>>

  /** The separator dispatch: the escaped newline and tab split on the real
      characters, anything else is a regular expression, and a pattern that
      does not compile is split on literally. */
  function SplitRecords(text: string, separator: string, regexSplit: RegexSplit): (r: Result<seq<string>, SplitError>)
    ensures r.Failure? ==> separator == [] && regexSplit(separator, text).None?
  {
    if separator == ESCAPED_NEWLINE then Success(SplitOn(text, ['\n']))
    else if separator == ESCAPED_TAB then Success(SplitOn(text, ['\t']))
    else match regexSplit(separator, text)
      case Some(parts) => Success(parts)
      case None =>
        if separator == [] then Failure(EmptySeparator) else Success(SplitOn(text, separator))
  }

  /** `r'\n'` cuts the text at every newline: the pieces hold no newline and,
      joined with newlines, give back the text. */
  lemma SplitEscapedNewline(text: string, regexSplit: RegexSplit)
    ensures SplitRecords(text, ESCAPED_NEWLINE, regexSplit).Success?
    ensures var parts := SplitRecords(text, ESCAPED_NEWLINE, regexSplit).value;
      && Join(parts, ['\n']) == text
      && forall i, j :: 0 <= i < |parts| && 0 <= j < |parts[i]| ==> parts[i][j] != '\n'
  {
  }

  /** `r'\t'` cuts the text at every tab in the same way. */
  lemma SplitEscapedTab(text: string, regexSplit: RegexSplit)
    ensures SplitRecords(text, ESCAPED_TAB, regexSplit).Success?
    ensures var parts := SplitRecords(text, ESCAPED_TAB, regexSplit).value;
      && Join(parts, ['\t']) == text
      && forall i, j :: 0 <= i < |parts| && 0 <= j < |parts[i]| ==> parts[i][j] != '\t'
  {
    assert ESCAPED_TAB != ESCAPED_NEWLINE by {
      assert ESCAPED_TAB[1] != ESCAPED_NEWLINE[1];
    }
  }

  /** Any other separator is given to the regular expression first; only a
      pattern that does not compile is split on as a literal, at its
      left-most non-overlapping occurrences. */
  lemma SplitOtherSeparator(text: string, separator: string, regexSplit: RegexSplit)
    requires separator != ESCAPED_NEWLINE && separator != ESCAPED_TAB
    ensures regexSplit(separator, text).Some? ==>
      SplitRecords(text, separator, regexSplit) == Success(regexSplit(separator, text).value)
    ensures regexSplit(separator, text).None? && separator != [] ==>
      && SplitRecords(text, separator, regexSplit) == Success(SplitOn(text, separator))
      && Join(SplitOn(text, separator), separator) == text
      && PiecesFree(SplitOn(text, separator), separator)
      && CutsLeftmost(SplitOn(text, separator), separator)
  {
    if separator != [] {
      SplitOnLeftmost(text, separator);
    }
  }

  /** A segment made of whitespace only, which is what `not
      record_text.strip()` tests (see `StripEmpty`). */
  predicate Blank(p: string)
  {
    AllSpace(p)
  }

  /** The cursor `pos` after the first `n` segments: every segment, blank
      or not, moves it by its UTF-8 length and one for the separator. */
  function Cursor(parts: seq<string>, n: nat): (pos: nat)
    requires n <= |parts|
    ensures pos >= n
  {
    if n == 0 then 0 else Cursor(parts, n - 1) + Utf8Length(parts[n - 1]) + 1
  }

  /** A stored record: the index of its segment and the byte range
      `insert_record` is given for it. */
  datatype Placed = Placed(seg: nat, start: nat, end: nat)

  /** The records `_parse_records` stores for the first `n` segments: the
      records of the first `n - 1`, then segment `n - 1`'s, placed at the
      cursor, when it is not blank. */
  function Layout(parts: seq<string>, n: nat): (r: seq<Placed>)
    requires n <= |parts|
    ensures |r| <= n
    ensures forall k :: 0 <= k < |r| ==> r[k].seg < n
  {
    if n == 0 then []
    else
      var before := Layout(parts, n - 1);
      if Blank(parts[n - 1]) then before
      else before + [Placed(n - 1, Cursor(parts, n - 1), Cursor(parts, n - 1) + Utf8Length(parts[n - 1]))]
  }

  /** The loop's step: segment `n - 1` moves the cursor by its UTF-8
      length and one, and is stored at the old cursor when it is not blank. */
  lemma LayoutStep(parts: seq<string>, n: nat)
    requires 1 <= n <= |parts|
    ensures Cursor(parts, n) == Cursor(parts, n - 1) + Utf8Length(parts[n - 1]) + 1
    ensures Blank(parts[n - 1]) ==> Layout(parts, n) == Layout(parts, n - 1)
    ensures !Blank(parts[n - 1]) ==>
      Layout(parts, n) == Layout(parts, n - 1) + [Placed(n - 1, Cursor(parts, n - 1), Cursor(parts, n - 1) + Utf8Length(parts[n - 1]))]
  {
  }

  /** The step as the loop takes it: with `placed` the records and `pos`
      the cursor after the first `i` segments, a segment that strips to
      nothing adds no record and any other is stored at `pos`. */
  lemma LayoutNext(parts: seq<string>, i: nat, placed: seq<Placed>, pos: nat)
    requires i < |parts| && placed == Layout(parts, i) && pos == Cursor(parts, i)
    ensures Cursor(parts, i + 1) == pos + Utf8Length(parts[i]) + 1
    ensures Layout(parts, i + 1) ==
      if Strip(parts[i]) == [] then placed else placed + [Placed(i, pos, pos + Utf8Length(parts[i]))]
  {
    var n := i + 1;
    LayoutStep(parts, n);
    assert n - 1 == i;
    assert Layout(parts, n - 1) == placed && Cursor(parts, n - 1) == pos;
    StripEmpty(parts[i]);
  }

  /** `LayoutNext` for a segment that strips to nothing. */
  lemma LayoutSkip(parts: seq<string>, i: nat, placed: seq<Placed>, pos: nat)
    requires i < |parts| && placed == Layout(parts, i) && pos == Cursor(parts, i)
    requires Strip(parts[i]) == []
    ensures placed == Layout(parts, i + 1)
    ensures pos + Utf8Length(parts[i]) + 1 == Cursor(parts, i + 1)
  {
    LayoutNext(parts, i, placed, pos);
  }

  /** `LayoutNext` for a segment that is stored. */
  lemma LayoutStore(parts: seq<string>, i: nat, placed: seq<Placed>, pos: nat)
    requires i < |parts| && placed == Layout(parts, i) && pos == Cursor(parts, i)
    requires Strip(parts[i]) != []
    ensures placed + [Placed(i, pos, pos + Utf8Length(parts[i]))] == Layout(parts, i + 1)
    ensures pos + Utf8Length(parts[i]) + 1 == Cursor(parts, i + 1)
  {
    LayoutNext(parts, i, placed, pos);
  }

  /** Exactly the non-blank segments are stored: every stored segment is
      non-blank, and every non-blank one among the first `n` is stored. */
  lemma {:induction false} LayoutSegments(parts: seq<string>, n: nat)
    requires n <= |parts|
    ensures forall k :: 0 <= k < |Layout(parts, n)| ==> !Blank(parts[Layout(parts, n)[k].seg])
    ensures forall j :: 0 <= j < n && !Blank(parts[j]) ==>
      exists k :: 0 <= k < |Layout(parts, n)| && Layout(parts, n)[k].seg == j
  {
    if n > 0 {
      LayoutSegments(parts, n - 1);
      var before := Layout(parts, n - 1);
      if !Blank(parts[n - 1]) {
        var r := before + [Placed(n - 1, Cursor(parts, n - 1), Cursor(parts, n - 1) + Utf8Length(parts[n - 1]))];
        assert Layout(parts, n) == r;
        forall j | 0 <= j < n && !Blank(parts[j])
          ensures exists k :: 0 <= k < |r| && r[k].seg == j
        {
          if j == n - 1 {
            assert r[|before|].seg == j;
          } else {
            var k :| 0 <= k < |before| && before[k].seg == j;
            assert r[k] == before[k];
          }
        }
      } else {
        assert Layout(parts, n) == before;
      }
    }
  }

  /** Every range is as long as its segment's UTF-8 bytes and ends before
      the cursor. */
  lemma {:induction false} LayoutWithinCursor(parts: seq<string>, n: nat)
    requires n <= |parts|
    ensures forall k :: 0 <= k < |Layout(parts, n)| ==>
      && Layout(parts, n)[k].end - Layout(parts, n)[k].start == Utf8Length(parts[Layout(parts, n)[k].seg])
      && Layout(parts, n)[k].end < Cursor(parts, n)
  {
    if n > 0 {
      LayoutWithinCursor(parts, n - 1);
    }
  }

  /** Records follow the segments' order, and each starts past the
      previous end and the separator after it. */
  lemma {:induction false} LayoutOrdered(parts: seq<string>, n: nat)
    requires n <= |parts|
    ensures forall i, j :: 0 <= i < j < |Layout(parts, n)| ==>
      && Layout(parts, n)[i].seg < Layout(parts, n)[j].seg
      && Layout(parts, n)[i].end + 1 <= Layout(parts, n)[j].start
  {
    if n > 0 {
      LayoutOrdered(parts, n - 1);
      LayoutWithinCursor(parts, n - 1);
      var before := Layout(parts, n - 1);
      if !Blank(parts[n - 1]) {
        var x := Placed(n - 1, Cursor(parts, n - 1), Cursor(parts, n - 1) + Utf8Length(parts[n - 1]));
        var r := before + [x];
        assert Layout(parts, n) == r;
        forall i, j | 0 <= i < j < |r| ensures r[i].seg < r[j].seg && r[i].end + 1 <= r[j].start {
          if j < |before| {
            assert r[i] == before[i] && r[j] == before[j];
          } else {
            assert r[i] == before[i] && r[j] == x;
            assert before[i].end < Cursor(parts, n - 1);
          }
        }
      } else {
        assert Layout(parts, n) == before;
      }
    }
  }

  /** Start offsets strictly increase. */
  lemma LayoutStartsIncrease(parts: seq<string>, n: nat)
    requires n <= |parts|
    ensures forall i, j :: 0 <= i < j < |Layout(parts, n)| ==> Layout(parts, n)[i].start < Layout(parts, n)[j].start
  {
    LayoutOrdered(parts, n);
    LayoutWithinCursor(parts, n);
  }

  /** The pieces of a join of ASCII text are ASCII. */
  lemma {:induction false} JoinedAscii(parts: seq<string>, sep: string)
    requires IsAscii(Join(parts, sep))
    ensures forall i :: 0 <= i < |parts| ==> IsAscii(parts[i])
    decreases |parts|
  {
    if |parts| >= 2 {
      var tail := Join(parts[1..], sep);
      assert Join(parts, sep) == parts[0] + sep + tail;
      assert IsAscii(parts[0]) by {
        forall j | 0 <= j < |parts[0]| ensures parts[0][j] < '\U{80}' {
          assert Join(parts, sep)[j] == parts[0][j];
        }
      }
      assert IsAscii(tail) by {
        forall j | 0 <= j < |tail| ensures tail[j] < '\U{80}' {
          assert Join(parts, sep)[|parts[0]| + |sep| + j] == tail[j];
        }
      }
      JoinedAscii(parts[1..], sep);
      forall i | 1 <= i < |parts| ensures IsAscii(parts[i]) {
        assert parts[i] == parts[1..][i - 1];
      }
    }
  }

  /** The join of the first `n` of two or more segments: the join of the
      first `n - 1`, the separator, and segment `n - 1`. */
  lemma JoinPrefix<T>(parts: seq<seq<T>>, n: nat, sep: seq<T>)
    requires 2 <= n <= |parts|
    ensures Join(parts[..n], sep) == Join(parts[..n - 1], sep) + sep + parts[n - 1]
  {
    var init := parts[..n - 1];
    assert parts[..n] == init + [parts[n - 1]];
    JoinSnoc(init, parts[n - 1], sep);
  }

  /** Over ASCII segments joined by one character, the cursor ends one
      past the joined text. */
  lemma {:induction false} CursorOfJoin(parts: seq<string>, n: nat, c: char)
    requires 1 <= n <= |parts|
    requires forall i :: 0 <= i < |parts| ==> IsAscii(parts[i])
    ensures Cursor(parts, n) == |Join(parts[..n], [c])| + 1
  {
    if n == 1 {
      assert parts[..1] == [parts[0]];
    } else {
      CursorOfJoin(parts, n - 1, c);
      JoinPrefix(parts, n, [c]);
    }
  }

  /** Every range lies in `text` and slices out its segment. */
  predicate SlicedFrom(r: seq<Placed>, parts: seq<string>, text: string)
  {
    forall k :: 0 <= k < |r| ==>
      && r[k].seg < |parts| && r[k].start <= r[k].end <= |text|
      && text[r[k].start..r[k].end] == parts[r[k].seg]
  }

  lemma SlicedExtend(r: seq<Placed>, parts: seq<string>, prefix: string, suffix: string)
    requires SlicedFrom(r, parts, prefix)
    ensures SlicedFrom(r, parts, prefix + suffix)
  {
    forall k | 0 <= k < |r|
      ensures (prefix + suffix)[r[k].start..r[k].end] == parts[r[k].seg]
    {
      assert (prefix + suffix)[r[k].start..r[k].end] == prefix[r[k].start..r[k].end];
    }
  }

  lemma SlicedSnoc(r: seq<Placed>, parts: seq<string>, x: Placed, text: string)
    requires SlicedFrom(r, parts, text)
    requires x.seg < |parts| && x.start <= x.end <= |text| && text[x.start..x.end] == parts[x.seg]
    ensures SlicedFrom(r + [x], parts, text)
  {
    assert forall k :: 0 <= k < |r| ==> (r + [x])[k] == r[k];
  }

  /** Over ASCII segments joined by one character, every stored range is
      exactly where its segment sits in the joined text. */
  lemma {:induction false} LayoutSlices(parts: seq<string>, n: nat, c: char)
    requires 1 <= n <= |parts|
    requires forall i :: 0 <= i < |parts| ==> IsAscii(parts[i])
    ensures SlicedFrom(Layout(parts, n), parts, Join(parts[..n], [c]))
  {
    var p := parts[n - 1];
    assert IsAscii(p);
    var before := Layout(parts, n - 1);
    var x := Placed(n - 1, Cursor(parts, n - 1), Cursor(parts, n - 1) + Utf8Length(p));
    assert Layout(parts, n) == if Blank(p) then before else before + [x];
    if n == 1 {
      assert parts[..1] == [p];
      assert p[0..|p|] == p;
    } else {
      LayoutSlices(parts, n - 1, c);
      CursorOfJoin(parts, n - 1, c);
      JoinPrefix(parts, n, [c]);
      var prefix := Join(parts[..n - 1], [c]);
      assert x == Placed(n - 1, |prefix| + 1, |prefix| + 1 + |p|);
      SliceStep(before, parts, prefix, c, n - 1);
    }
  }

  /** One more segment after a joined prefix and the separator: the old
      ranges still slice out their segments, and the new one, one past the
      prefix, slices out the segment. */
  lemma SliceStep(before: seq<Placed>, parts: seq<string>, prefix: string, c: char, j: nat)
    requires j < |parts| && SlicedFrom(before, parts, prefix)
    ensures SlicedFrom(before, parts, prefix + [c] + parts[j])
    ensures SlicedFrom(before + [Placed(j, |prefix| + 1, |prefix| + 1 + |parts[j]|)], parts, prefix + [c] + parts[j])
  {
    var p := parts[j];
    var text := prefix + [c] + p;
    var x := Placed(j, |prefix| + 1, |prefix| + 1 + |p|);
    SlicedExtend(before, parts, prefix, [c] + p);
    assert text == prefix + ([c] + p);
    assert text[x.start..] == p;
    SlicedSnoc(before, parts, x, text);
  }

  /** A text split on one character it is ASCII in: every stored range
      slices out exactly its segment, and the cursor ends one past the
      text. */
  lemma RecordsSitInText(text: string, c: char)
    requires IsAscii(text)
    ensures var parts := SplitOn(text, [c]);
      && SlicedFrom(Layout(parts, |parts|), parts, text)
      && Cursor(parts, |parts|) == |text| + 1
  {
    var parts := SplitOn(text, [c]);
    JoinedAscii(parts, [c]);
    LayoutSlices(parts, |parts|, c);
    CursorOfJoin(parts, |parts|, c);
    assert parts[..|parts|] == parts;
  }

  /** A pattern made of one plain character, such as a real newline, goes
      to the regular expression. When that split cuts at the character as
      `str.split` does, every stored record sits exactly at its segment
      in the text. */
  lemma PlainCharacterRecordsSitInText(text: string, c: char, regexSplit: RegexSplit)
    requires IsAscii(text)
    requires regexSplit([c], text) == Some(SplitOn(text, [c]))
    ensures SplitRecords(text, [c], regexSplit) == Success(SplitOn(text, [c]))
    ensures var parts := SplitOn(text, [c]);
      && SlicedFrom(Layout(parts, |parts|), parts, text)
      && Cursor(parts, |parts|) == |text| + 1
  {
    assert [c] != ESCAPED_NEWLINE && [c] != ESCAPED_TAB;
    RecordsSitInText(text, c);
  }

  /** With a two-character separator the cursor still adds one: the second
      of two records is stored one byte before the place it sits at. */
  lemma WideSeparatorDrift(a: string, b: string, sep: string)
    requires |sep| == 2 && IsAscii(a) && IsAscii(b)
    requires !Blank(a) && !Blank(b)
    ensures var r := Layout([a, b], 2);
      && |r| == 2 && r[1].seg == 1
      && (a + sep + b)[|a + sep|..] == b
      && r[1].start + 1 == |a + sep|
  {
    assert Layout([a, b], 1) == [Placed(0, 0, |a|)];
    assert Cursor([a, b], 1) == |a| + 1;
  }
}
