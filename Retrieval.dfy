/** `Searcher` of src/search.py: the term is lower-cased and looked up, the
    indexed file is read and decoded in full, and every matching record is
    cut out of the text by its stored offsets; `display_results` caps and
    truncates what is shown. */
module Retrieval {
  import opened Wrappers
  import opened Text
  import opened Bytes
  import opened Tables
  import opened Database
  import Decoder
  import Ingest

  // ---------------------------------------------------------------- slicing

  /** A slice bound as Python normalises it against a length `n`: negative
      bounds count from the end, and every bound is clamped to `0..n`. */
  function SliceBound(i: int, n: nat): (b: nat)
    ensures b <= n
  {
    if i < 0 then (if i + n < 0 then 0 else i + n)
    else if i > n then n
    else i
  }

  /** `s[start:end]`: never an error; empty when the bounds cross. */
  function PySlice<T>(s: seq<T>, start: int, end: int): (r: seq<T>)
    ensures |r| <= |s|
    ensures 0 <= start <= end <= |s| ==> r == s[start..end]
    ensures 0 <= end <= start ==> r == []
  {
    var a, b := SliceBound(start, |s|), SliceBound(end, |s|);
    if a < b then s[a..b] else []
  }

  /** A slice is a contiguous run of `s`, starting at the normalised start. */
  lemma PySliceContiguous<T>(s: seq<T>, start: int, end: int)
    ensures var a := SliceBound(start, |s|);
      a + |PySlice(s, start, end)| <= |s| && PySlice(s, start, end) == s[a..a + |PySlice(s, start, end)|]
  {
  }

  /** Offsets past the end are cut back to the end: a record whose offsets
      run past the text comes out truncated or empty. */
  lemma PySliceClamps<T>(s: seq<T>, start: nat, end: nat)
    ensures PySlice(s, start, end) ==
      if start < end && start < |s| then s[start..if end < |s| then end else |s|] else []
  {
  }

  /** A negative start counts from the end. */
  lemma PySliceNegativeStart<T>(s: seq<T>, start: int, end: int)
    requires -|s| <= start < 0
    ensures PySlice(s, start, end) == PySlice(s, start + |s|, end)
  {
  }

  /** `s[:m]` for `m >= 0` keeps the first `min(len(s), m)` elements. */
  lemma PrefixLength<T>(s: seq<T>, m: int)
    requires m >= 0
    ensures |PySlice(s, 0, m)| == (if |s| < m then |s| else m)
    ensures PySlice(s, 0, m) == s[..|PySlice(s, 0, m)|]
  {
  }

  // ---------------------------------------------------------------- search

  /** Why `search` raises: `SearchError` for a missing file row, the error
      of `open`, or the error of the decoder. */
  datatype SearchFailure = NoFileInfo | ReadFailed(path: string) | DecodeFailed(error: Decoder.CodecError)

  /** What `search` reaches outside the index: the bytes of a file by path
      (`None` where `open` raises), the library codecs, and
      `bytes.decode('utf-8', errors='ignore')`. */
  datatype Env = Env(readFile: string -> Option<seq<byte>>, codecs: Decoder.Codecs,
                     decodeText: seq<byte> -> string)

  /** The path `search` opens: the caller's `filepath` unless it is absent
      or empty, the stored filename otherwise. */
  function SearchPath(filepath: Option<string>, info: FileInfo): string
  {
    if filepath.None? || filepath.value == "" then info.filename else filepath.value
  }

  /** The text of the indexed file: the file row, the read, and the decode
      unless the stored encoding is `none`. */
  function SearchText(files: seq<FileRow>, encodings: seq<EncodingRow>, filepath: Option<string>, env: Env)
    : Result<string, SearchFailure>
  {
    match FirstFileInfo(files, encodings)
    case None => Failure(NoFileInfo)
    case Some(info) =>
      var path := SearchPath(filepath, info);
      match env.readFile(path)
      case None => Failure(ReadFailed(path))
      case Some(data) =>
        match Ingest.DecodedData(data, info.encoding, env.codecs)
        case Failure(e) => Failure(DecodeFailed(e))
        case Success(bytes) => Success(env.decodeText(bytes))
  }

  /** `text[start_pos:end_pos]` for every row, in order. */
  function Slices(text: string, rows: seq<RecordRow>): (texts: seq<string>)
    ensures |texts| == |rows|
    ensures forall k :: 0 <= k < |rows| ==> texts[k] == PySlice(text, rows[k].start, rows[k].end)
  {
    seq(|rows|, k requires 0 <= k < |rows| => PySlice(text, rows[k].start, rows[k].end))
  }

  /** `Searcher.search(term, filepath)` as a function of the tables. */
  function SearchOutcome(records: seq<RecordRow>, tokens: seq<TokenRow>, occurrences: seq<OccurrenceRow>,
                         files: seq<FileRow>, encodings: seq<EncodingRow>,
                         term: string, filepath: Option<string>, env: Env): Result<seq<string>, SearchFailure>
  {
    var rows := SearchRows(records, tokens, occurrences, Lower(term));
    if rows == [] then Success([])
    else
      match SearchText(files, encodings, filepath, env)
      case Failure(e) => Failure(e)
      case Success(text) => Success(Slices(text, rows))
  }

  /** `Searcher.search`: look the lower-cased term up, stop with no results
      before touching the file, then read, decode and cut out the records. */
  method Search(db: Index, term: string, filepath: Option<string>, env: Env)
    returns (r: Result<seq<string>, SearchFailure>)
    requires db.Valid()
    ensures r == SearchOutcome(db.records, db.tokens, db.occurrences, db.files, db.encodings, term, filepath, env)
  {
    var results := db.SearchToken(Lower(term));
    if results == [] {
      return Success([]);
    }
    var info := db.GetFileInfo();
    if info.None? {
      return Failure(NoFileInfo);
    }
    var path := if filepath.None? || filepath.value == "" then info.value.filename else filepath.value;
    var data := env.readFile(path);
    if data.None? {
      return Failure(ReadFailed(path));
    }
    var decoded := Ingest.DecodedData(data.value, info.value.encoding, env.codecs);
    if decoded.Failure? {
      return Failure(DecodeFailed(decoded.error));
    }
    var text := env.decodeText(decoded.value);
    var matching := Cut(text, results);
    return Success(matching);
  }

  /** The loop of `search` that collects `text[start_pos:end_pos]`. */
  method Cut(text: string, rows: seq<RecordRow>) returns (matching: seq<string>)
    ensures matching == Slices(text, rows)
  {
    matching := [];
    var k := 0;
    while k < |rows|
      invariant 0 <= k <= |rows|
      invariant matching == Slices(text, rows[..k])
    {
      var piece := PySlice(text, rows[k].start, rows[k].end);
      SlicesSnoc(text, rows, k, matching, piece);
      matching := matching + [piece];
      k := k + 1;
    }
    assert rows[..k] == rows;
  }

  lemma SlicesSnoc(text: string, rows: seq<RecordRow>, k: nat, matching: seq<string>, piece: string)
    requires k < |rows| && matching == Slices(text, rows[..k])
    requires piece == PySlice(text, rows[k].start, rows[k].end)
    ensures matching + [piece] == Slices(text, rows[..k + 1])
  {
    assert rows[..k + 1][..k] == rows[..k];
  }

  /** The term is matched without regard to case: searching `term` and
      its lower-cased form give the same outcome. */
  lemma SearchIgnoresCase(records: seq<RecordRow>, tokens: seq<TokenRow>, occurrences: seq<OccurrenceRow>,
                          files: seq<FileRow>, encodings: seq<EncodingRow>,
                          term: string, filepath: Option<string>, env: Env)
    ensures SearchOutcome(records, tokens, occurrences, files, encodings, term, filepath, env)
      == SearchOutcome(records, tokens, occurrences, files, encodings, Lower(term), filepath, env)
  {
    LowerIdempotent(term);
  }

  /** The outcome is an empty list of records exactly when no record is
      linked to the lower-cased term; the file rows and the file are then
      not consulted. */
  lemma SearchEmptyIff(records: seq<RecordRow>, tokens: seq<TokenRow>, occurrences: seq<OccurrenceRow>,
                       files: seq<FileRow>, encodings: seq<EncodingRow>,
                       term: string, filepath: Option<string>, env: Env)
    ensures SearchOutcome(records, tokens, occurrences, files, encodings, term, filepath, env) == Success([])
      <==> SearchRows(records, tokens, occurrences, Lower(term)) == []
  {
    var rows := SearchRows(records, tokens, occurrences, Lower(term));
    if rows != [] {
      match SearchText(files, encodings, filepath, env)
      case Failure(e) =>
      case Success(text) =>
        assert |Slices(text, rows)| == |rows| > 0;
    }
  }

  /** With no matching record the outcome does not depend on the file
      table, the encoding table, the path or the environment. */
  lemma SearchNoMatchesIgnoresFile(records: seq<RecordRow>, tokens: seq<TokenRow>, occurrences: seq<OccurrenceRow>,
                                   files: seq<FileRow>, encodings: seq<EncodingRow>, term: string,
                                   filepath: Option<string>, env: Env,
                                   files': seq<FileRow>, encodings': seq<EncodingRow>,
                                   filepath': Option<string>, env': Env)
    requires SearchRows(records, tokens, occurrences, Lower(term)) == []
    ensures SearchOutcome(records, tokens, occurrences, files, encodings, term, filepath, env)
      == SearchOutcome(records, tokens, occurrences, files', encodings', term, filepath', env')
  {
  }

  /** Matches without a file row whose encoding exists raise `SearchError`. */
  lemma SearchNeedsFileInfo(records: seq<RecordRow>, tokens: seq<TokenRow>, occurrences: seq<OccurrenceRow>,
                            files: seq<FileRow>, encodings: seq<EncodingRow>,
                            term: string, filepath: Option<string>, env: Env)
    requires SearchRows(records, tokens, occurrences, Lower(term)) != []
    requires forall f, e :: f in files && e in encodings ==> f.encodingId != e.id
    ensures SearchOutcome(records, tokens, occurrences, files, encodings, term, filepath, env) == Failure(NoFileInfo)
  {
  }

  /** The only file read is the caller's path when one is given, and the
      stored filename otherwise: two environments that agree on that file
      give the same outcome. */
  lemma SearchReadsChosenPath(records: seq<RecordRow>, tokens: seq<TokenRow>, occurrences: seq<OccurrenceRow>,
                              files: seq<FileRow>, encodings: seq<EncodingRow>,
                              term: string, filepath: Option<string>, env: Env, env': Env)
    requires FirstFileInfo(files, encodings).Some?
    requires env.codecs == env'.codecs && env.decodeText == env'.decodeText
    requires var path := if filepath.Some? && filepath.value != "" then filepath.value
                         else FirstFileInfo(files, encodings).value.filename;
      env.readFile(path) == env'.readFile(path)
    ensures SearchOutcome(records, tokens, occurrences, files, encodings, term, filepath, env)
      == SearchOutcome(records, tokens, occurrences, files, encodings, term, filepath, env')
  {
  }

  /** A successful search with matches gives one text per matching row, in
      ascending start order, each the slice of the decoded text at the
      row's offsets; every row is linked to a token equal to the
      lower-cased term. */
  lemma SearchFinds(records: seq<RecordRow>, tokens: seq<TokenRow>, occurrences: seq<OccurrenceRow>,
                    files: seq<FileRow>, encodings: seq<EncodingRow>,
                    term: string, filepath: Option<string>, env: Env)
    requires UniqueRecordIds(records)
    requires SearchRows(records, tokens, occurrences, Lower(term)) != []
    ensures var rows := SearchRows(records, tokens, occurrences, Lower(term));
      && SortedByStart(rows)
      && (forall r :: r in rows <==> r in records && r.id in LinkedRecords(tokens, occurrences, Lower(term)))
      && (SearchText(files, encodings, filepath, env).Failure? ==>
            SearchOutcome(records, tokens, occurrences, files, encodings, term, filepath, env)
              == Failure(SearchText(files, encodings, filepath, env).error))
      && (SearchText(files, encodings, filepath, env).Success? ==>
            var texts := SearchOutcome(records, tokens, occurrences, files, encodings, term, filepath, env).value;
            var text := SearchText(files, encodings, filepath, env).value;
            && |texts| == |rows|
            && forall k :: 0 <= k < |rows| ==> texts[k] == PySlice(text, rows[k].start, rows[k].end))
  {
    SearchRowsSpec(records, tokens, occurrences, Lower(term));
  }

  // ---------------------------------------------------------------- display

  /** `'=' * 60` */
  const RULE: string := "============================================================"
  const SHOWN_CHARS: nat := 500

  /** One `print` of `display_results`, by what it prints. */
  datatype Line =
    | OpeningRule
    | Summary(shown: int, total: int)
    | ClosingRule
    | RecordTitle(number: int)
    | RecordBody(record: string)
    | Blank
    | More(left: int)

  /** How a record is printed: its first 500 characters and `...` when it
      is longer than that, the record itself otherwise. */
  function Shown(record: string): string
  {
    if |record| > SHOWN_CHARS then PySlice(record, 0, SHOWN_CHARS) + "..." else record
  }

  /** The text of a line, without the newline `print` adds. */
  function Render(line: Line): string
  {
    match line
    case OpeningRule => "\n" + RULE
    case Summary(shown, total) => "Displaying " + IntToString(shown) + " of " + IntToString(total) + " results:"
    case ClosingRule => RULE + "\n"
    case RecordTitle(n) => "--- Record " + IntToString(n) + " ---"
    case RecordBody(record) => Shown(record)
    case Blank => ""
    case More(left) => "... and " + IntToString(left) + " more results"
  }

  /** The three lines of the record numbered `n`. */
  function Block(n: int, record: string): seq<Line>
  {
    [RecordTitle(n), RecordBody(record), Blank]
  }

  /** The blocks of `records`, numbered from `first + 1` on. */
  function Blocks(records: seq<string>, first: int): (lines: seq<Line>)
    decreases |records|
  {
    if records == [] then [] else Block(first + 1, records[0]) + Blocks(records[1..], first + 1)
  }

  /** The three lines printed before the records. */
  function Header(records: seq<string>, maxDisplay: int): seq<Line>
  {
    [OpeningRule, Summary(if |records| < maxDisplay then |records| else maxDisplay, |records|), ClosingRule]
  }

  /** The line printed after the records, when some were left out. */
  function Footer(records: seq<string>, maxDisplay: int): seq<Line>
  {
    if |records| > maxDisplay then [More(|records| - maxDisplay)] else []
  }

  /** `display_results(records, max_display)`: the lines it prints. */
  function DisplayLines(records: seq<string>, maxDisplay: int): seq<Line>
  {
    if records == [] then []
    else Header(records, maxDisplay) + Blocks(PySlice(records, 0, maxDisplay), 0) + Footer(records, maxDisplay)
  }

  /** The printed text of `lines`, one string per `print`. */
  function Printed(lines: seq<Line>): (texts: seq<string>)
    ensures |texts| == |lines|
    ensures forall k :: 0 <= k < |lines| ==> texts[k] == Render(lines[k])
  {
    seq(|lines|, k requires 0 <= k < |lines| => Render(lines[k]))
  }

  lemma AppendLeft<T>(a: seq<T>, b: seq<T>, c: seq<T>, i: nat)
    requires c == a + b && i < |a|
    ensures c[i] == a[i]
  {
  }

  lemma AppendRight<T>(a: seq<T>, b: seq<T>, c: seq<T>, j: nat)
    requires c == a + b && j < |b|
    ensures c[|a| + j] == b[j]
  {
  }

  /** Every record takes three lines. */
  lemma {:induction false} BlocksLength(records: seq<string>, first: int)
    ensures |Blocks(records, first)| == 3 * |records|
    decreases |records|
  {
    if records != [] {
      BlocksLength(records[1..], first + 1);
    }
  }

  /** Record `k` of `Blocks(records, first)` sits at lines `3k` to `3k + 2`,
      numbered `first + k + 1`. */
  lemma {:induction false} BlockAt(records: seq<string>, first: int, k: nat)
    requires k < |records|
    ensures 3 * k + 2 < |Blocks(records, first)|
    ensures Blocks(records, first)[3 * k] == RecordTitle(first + k + 1)
    ensures Blocks(records, first)[3 * k + 1] == RecordBody(records[k])
    ensures Blocks(records, first)[3 * k + 2] == Blank
    decreases k
  {
    var rest := records[1..];
    var lines := Blocks(records, first);
    var block := Block(first + 1, records[0]);
    var tail := Blocks(rest, first + 1);
    BlocksLength(records, first);
    BlocksLength(rest, first + 1);
    assert lines == block + tail;
    if k == 0 {
      AppendLeft(block, tail, lines, 0);
      AppendLeft(block, tail, lines, 1);
      AppendLeft(block, tail, lines, 2);
    } else {
      var j := 3 * (k - 1);
      BlockAt(rest, first + 1, k - 1);
      AppendRight(block, tail, lines, j);
      AppendRight(block, tail, lines, j + 1);
      AppendRight(block, tail, lines, j + 2);
      assert rest[k - 1] == records[k];
    }
  }

  /** Nothing is printed exactly when there is nothing to show. */
  lemma DisplayNothingIff(records: seq<string>, maxDisplay: int)
    ensures DisplayLines(records, maxDisplay) == [] <==> records == []
  {
  }

  /** The lines of a non-empty display, split where the records start. */
  lemma DisplayParts(records: seq<string>, maxDisplay: int, head: seq<Line>, rest: seq<Line>)
    requires records != []
    requires head == Header(records, maxDisplay)
    requires rest == Blocks(PySlice(records, 0, maxDisplay), 0) + Footer(records, maxDisplay)
    ensures DisplayLines(records, maxDisplay) == head + rest
  {
  }

  /** Shown record `k` sits at lines `3 + 3k` and `3 + 3k + 1`. */
  lemma DisplayRecordAt(records: seq<string>, maxDisplay: int, k: nat)
    requires records != [] && maxDisplay >= 0
    requires k < |records| && k < maxDisplay
    ensures var lines := DisplayLines(records, maxDisplay);
      3 + 3 * k + 1 < |lines|
      && lines[3 + 3 * k] == RecordTitle(k + 1)
      && lines[3 + 3 * k + 1] == RecordBody(records[k])
  {
    var shown := PySlice(records, 0, maxDisplay);
    PrefixLength(records, maxDisplay);
    var head, blocks, foot := Header(records, maxDisplay), Blocks(shown, 0), Footer(records, maxDisplay);
    var rest := blocks + foot;
    DisplayParts(records, maxDisplay, head, rest);
    var lines := DisplayLines(records, maxDisplay);
    BlockAt(shown, 0, k);
    assert shown[k] == records[k];
    AppendLeft(blocks, foot, rest, 3 * k);
    AppendLeft(blocks, foot, rest, 3 * k + 1);
    AppendRight(head, rest, lines, 3 * k);
    AppendRight(head, rest, lines, 3 * k + 1);
  }

  /** With a non-negative cap, the summary counts `min(len, max_display)`
      of `len` records, and that many records are shown, numbered from 1,
      after three header lines. */
  lemma DisplayShowsFirst(records: seq<string>, maxDisplay: int)
    requires records != [] && maxDisplay >= 0
    ensures var n := if |records| < maxDisplay then |records| else maxDisplay;
      var lines := DisplayLines(records, maxDisplay);
      && |lines| == 3 + 3 * n + (if |records| > maxDisplay then 1 else 0)
      && lines[1] == Summary(n, |records|)
      && forall k :: 0 <= k < n ==>
           lines[3 + 3 * k] == RecordTitle(k + 1)
           && lines[3 + 3 * k + 1] == RecordBody(records[k])
  {
    var shown := PySlice(records, 0, maxDisplay);
    PrefixLength(records, maxDisplay);
    BlocksLength(shown, 0);
    var head, rest := Header(records, maxDisplay), Blocks(shown, 0) + Footer(records, maxDisplay);
    DisplayParts(records, maxDisplay, head, rest);
    AppendLeft(head, rest, DisplayLines(records, maxDisplay), 1);
    forall k | 0 <= k < |shown|
      ensures DisplayLines(records, maxDisplay)[3 + 3 * k] == RecordTitle(k + 1)
      ensures DisplayLines(records, maxDisplay)[3 + 3 * k + 1] == RecordBody(records[k])
    {
      DisplayRecordAt(records, maxDisplay, k);
    }
  }

  /** A record longer than 500 characters is printed as its first 500 and
      `...`; a shorter one as it is. */
  lemma ShownTruncates(record: string)
    ensures |record| > 500 ==> Render(RecordBody(record)) == record[..500] + "..." && |Render(RecordBody(record))| == 503
    ensures |record| <= 500 ==> Render(RecordBody(record)) == record
  {
  }

  /** With records left out, the display ends with their count. */
  lemma DisplayEndsWithMore(records: seq<string>, maxDisplay: int)
    requires records != [] && |records| > maxDisplay
    ensures var lines := DisplayLines(records, maxDisplay);
      |lines| >= 1 && lines[|lines| - 1] == More(|records| - maxDisplay)
  {
    var front, foot := Header(records, maxDisplay) + Blocks(PySlice(records, 0, maxDisplay), 0), Footer(records, maxDisplay);
    var lines := DisplayLines(records, maxDisplay);
    assert lines == front + foot;
    AppendRight(front, foot, lines, 0);
  }

  /** With every record shown, the display ends with the blank line after
      the last record. */
  lemma DisplayEndsBlank(records: seq<string>, maxDisplay: int)
    requires records != [] && |records| <= maxDisplay
    ensures var lines := DisplayLines(records, maxDisplay);
      |lines| >= 1 && lines[|lines| - 1] == Blank
  {
    var shown := PySlice(records, 0, maxDisplay);
    PrefixLength(records, maxDisplay);
    var head, blocks := Header(records, maxDisplay), Blocks(shown, 0);
    assert Footer(records, maxDisplay) == [];
    var lines := DisplayLines(records, maxDisplay);
    assert lines == head + blocks;
    BlockAt(shown, 0, |shown| - 1);
    BlocksLength(shown, 0);
    AppendRight(head, blocks, lines, 3 * (|shown| - 1) + 2);
  }

  /** The last line says how many records were not shown exactly when there
      are more records than the cap; otherwise it is the blank line after
      the last record. */
  lemma DisplayMoreIff(records: seq<string>, maxDisplay: int)
    requires records != []
    ensures var lines := DisplayLines(records, maxDisplay);
      (lines[|lines| - 1] == More(|records| - maxDisplay))
        <==> |records| > maxDisplay
    ensures var lines := DisplayLines(records, maxDisplay);
      |records| <= maxDisplay ==> lines[|lines| - 1] == Blank
  {
    if |records| > maxDisplay {
      DisplayEndsWithMore(records, maxDisplay);
    } else {
      DisplayEndsBlank(records, maxDisplay);
    }
  }

  /** Printed, that last line is the count line only when records were left
      out: every other way the display can end prints an empty line. */
  lemma DisplayPrintsMoreIff(records: seq<string>, maxDisplay: int)
    requires records != []
    ensures var texts := Printed(DisplayLines(records, maxDisplay));
      (texts[|texts| - 1] == Render(More(|records| - maxDisplay)))
        <==> |records| > maxDisplay
  {
    DisplayMoreIff(records, maxDisplay);
    var lines := DisplayLines(records, maxDisplay);
    var last := lines[|lines| - 1];
    assert |Render(More(|records| - maxDisplay))| >= 1;
  }
}
