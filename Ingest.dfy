/** Ingestion in src/parser.py: `Parser._parse_records` stores one record
    per non-blank segment and links every token of it, lower-cased, through
    `insert_token` and `insert_token_occurrence`; `Parser.parse_file` first
    records the encoding and the file. */
module Ingest {
  import opened Wrappers
  import opened Text
  import opened Bytes
  import opened Tables
  import opened Tokenizer
  import opened Records
  import opened Database
  import Decoder

  /** The token and the occurrence tables with their counters. */
  datatype Links = Links(tokens: seq<TokenRow>, occurrences: seq<OccurrenceRow>,
                         nextTokenId: int, nextOccurrenceId: int)

  /** What `Index.Valid` asks of the token and occurrence tables. */
  predicate LinksValid(s: Links)
  {
    && (forall k :: 0 <= k < |s.tokens| ==> s.tokens[k].id < s.nextTokenId && s.tokens[k].count >= 1)
    && (forall k :: 0 <= k < |s.occurrences| ==> s.occurrences[k].id < s.nextOccurrenceId)
    && UniqueTokenIds(s.tokens) && UniqueValues(s.tokens)
  }

  /** `token_id = insert_token(word)` then `insert_token_occurrence(token_id, recordId)`. */
  function LinkWord(s: Links, word: string, recordId: int): Links
  {
    var u := UpsertToken(s.tokens, word, s.nextTokenId);
    Links(u.tokens, s.occurrences + [OccurrenceRow(s.nextOccurrenceId, u.id, recordId)],
          if FindToken(s.tokens, word).Some? then s.nextTokenId else s.nextTokenId + 1,
          s.nextOccurrenceId + 1)
  }

  /** The inner loop over the tokens of one record. */
  function LinkWords(s: Links, words: seq<string>, recordId: int): Links
  {
    if words == [] then s
    else LinkWord(LinkWords(s, words[..|words| - 1], recordId), words[|words| - 1], recordId)
  }

  /** The tokens of a record as they are stored: `token.lower()` for each. */
  function Words(text: string): (words: seq<string>)
    ensures |words| == |Tokenize(text)|
    ensures forall k :: 0 <= k < |words| ==> words[k] == Lower(Tokenize(text)[k])
  {
    seq(|Tokenize(text)|, k requires 0 <= k < |Tokenize(text)| => Lower(Tokenize(text)[k]))
  }

  /** The token links of the stored records, the `k`-th being given the
      record id `firstId + k`. */
  function LinkRecords(s: Links, parts: seq<string>, placed: seq<Placed>, firstId: int): Links
    requires InParts(parts, placed)
  {
    if placed == [] then s
    else
      var init := placed[..|placed| - 1];
      LinkWords(LinkRecords(s, parts, init, firstId), Words(parts[placed[|placed| - 1].seg]), firstId + |init|)
  }

  /** The stored records point at segments that exist. */
  predicate InParts(parts: seq<string>, placed: seq<Placed>)
  {
    forall k :: 0 <= k < |placed| ==> placed[k].seg < |parts|
  }

  /** The record rows `insert_record` appends for the stored records. */
  function RecordRows(placed: seq<Placed>, firstId: int): (rows: seq<RecordRow>)
    ensures |rows| == |placed|
    ensures forall k :: 0 <= k < |rows| ==>
      rows[k] == RecordRow(firstId + k, placed[k].start, placed[k].end)
  {
    seq(|placed|, k requires 0 <= k < |placed| => RecordRow(firstId + k, placed[k].start, placed[k].end))
  }

  lemma LinkRecordsSnoc(s: Links, parts: seq<string>, placed: seq<Placed>, seg: nat, start: nat, end: nat, firstId: int)
    requires InParts(parts, placed) && seg < |parts|
    ensures InParts(parts, placed + [Placed(seg, start, end)])
    ensures LinkRecords(s, parts, placed + [Placed(seg, start, end)], firstId) ==
      LinkWords(LinkRecords(s, parts, placed, firstId), Words(parts[seg]), firstId + |placed|)
  {
    assert (placed + [Placed(seg, start, end)])[..|placed|] == placed;
  }

  /** `LinkRecordsSnoc` in the form the ingestion loop uses it. */
  lemma LinkRecordsNext(s: Links, parts: seq<string>, placed: seq<Placed>, seg: nat, start: nat, end: nat,
                        firstId: int, before: Links, after: Links)
    requires InParts(parts, placed) && seg < |parts|
    requires before == LinkRecords(s, parts, placed, firstId)
    requires after == LinkWords(before, Words(parts[seg]), firstId + |placed|)
    ensures InParts(parts, placed + [Placed(seg, start, end)])
    ensures after == LinkRecords(s, parts, placed + [Placed(seg, start, end)], firstId)
  {
    LinkRecordsSnoc(s, parts, placed, seg, start, end, firstId);
  }

  lemma RecordRowsSnoc(rows: seq<RecordRow>, placed: seq<Placed>, seg: nat, start: nat, end: nat, firstId: int)
    ensures rows + RecordRows(placed + [Placed(seg, start, end)], firstId) ==
      rows + RecordRows(placed, firstId) + [RecordRow(firstId + |placed|, start, end)]
  {
    assert RecordRows(placed + [Placed(seg, start, end)], firstId) ==
      RecordRows(placed, firstId) + [RecordRow(firstId + |placed|, start, end)];
  }

  // ---------------------------------------------------------------- counts

  /** One token linked: the tables stay valid, and counts that matched the
      occurrence rows still do. */
  lemma LinkWordKeeps(s: Links, word: string, recordId: int)
    requires LinksValid(s)
    ensures LinksValid(LinkWord(s, word, recordId))
    ensures CountsMatch(s.tokens, s.occurrences) ==>
      var r := LinkWord(s, word, recordId);
      CountsMatch(r.tokens, r.occurrences)
  {
    var u := UpsertToken(s.tokens, word, s.nextTokenId);
    UpsertKeepsUnique(s.tokens, word, s.nextTokenId);
    UpsertKeepsBounds(s.tokens, word, s.nextTokenId, u);
    if CountsMatch(s.tokens, s.occurrences) {
      UpsertThenLinkKeepsCounts(s.tokens, s.occurrences, word, s.nextTokenId,
                                OccurrenceRow(s.nextOccurrenceId, u.id, recordId));
    }
  }

  lemma {:induction false} LinkWordsKeeps(s: Links, words: seq<string>, recordId: int)
    requires LinksValid(s)
    ensures LinksValid(LinkWords(s, words, recordId))
    ensures CountsMatch(s.tokens, s.occurrences) ==>
      var r := LinkWords(s, words, recordId);
      CountsMatch(r.tokens, r.occurrences)
    decreases |words|
  {
    if words != [] {
      LinkWordsKeeps(s, words[..|words| - 1], recordId);
      LinkWordKeeps(LinkWords(s, words[..|words| - 1], recordId), words[|words| - 1], recordId);
    }
  }

  /** The last record's links on top of the links of the others. */
  lemma LinkRecordsLast(s: Links, parts: seq<string>, placed: seq<Placed>, firstId: int)
    requires InParts(parts, placed) && placed != []
    ensures InParts(parts, placed[..|placed| - 1])
    ensures LinkRecords(s, parts, placed, firstId) ==
      LinkWords(LinkRecords(s, parts, placed[..|placed| - 1], firstId),
                Words(parts[placed[|placed| - 1].seg]), firstId + |placed[..|placed| - 1]|)
  {
  }

  /** `LinkWordsKeeps` for links `r` known to be those of `words` on top of `b`. */
  lemma LinkWordsKeepsAt(b: Links, words: seq<string>, recordId: int, r: Links)
    requires LinksValid(b) && r == LinkWords(b, words, recordId)
    ensures LinksValid(r)
    ensures CountsMatch(b.tokens, b.occurrences) ==> CountsMatch(r.tokens, r.occurrences)
  {
    LinkWordsKeeps(b, words, recordId);
  }

  /** Ingestion keeps the token and occurrence tables valid, and every
      token's `count` equal to its number of occurrence rows. */
  lemma {:induction false} LinkRecordsKeeps(s: Links, parts: seq<string>, placed: seq<Placed>, firstId: int)
    requires LinksValid(s) && InParts(parts, placed)
    ensures LinksValid(LinkRecords(s, parts, placed, firstId))
    ensures CountsMatch(s.tokens, s.occurrences) ==>
      var r := LinkRecords(s, parts, placed, firstId);
      CountsMatch(r.tokens, r.occurrences)
    decreases |placed|
  {
    if placed != [] {
      var init := placed[..|placed| - 1];
      LinkRecordsLast(s, parts, placed, firstId);
      LinkRecordsKeeps(s, parts, init, firstId);
      LinkWordsKeepsAt(LinkRecords(s, parts, init, firstId), Words(parts[placed[|placed| - 1].seg]),
                       firstId + |init|, LinkRecords(s, parts, placed, firstId));
    }
  }

  /** Every token instance of a record adds exactly one occurrence row,
      for that record, with the next occurrence id; earlier rows stay. */
  lemma {:induction false} LinkWordsOccurrences(s: Links, words: seq<string>, recordId: int)
    ensures var r := LinkWords(s, words, recordId);
      && |r.occurrences| == |s.occurrences| + |words|
      && r.occurrences[..|s.occurrences|] == s.occurrences
      && r.nextOccurrenceId == s.nextOccurrenceId + |words|
      && forall k :: |s.occurrences| <= k < |r.occurrences| ==>
           r.occurrences[k].recordId == recordId
           && r.occurrences[k].id == s.nextOccurrenceId + (k - |s.occurrences|)
    decreases |words|
  {
    if words != [] {
      var init := words[..|words| - 1];
      LinkWordsOccurrences(s, init, recordId);
      var m := LinkWords(s, init, recordId);
      assert m.occurrences[..|s.occurrences|] == s.occurrences;
      var r := LinkWords(s, words, recordId);
      assert r.occurrences == m.occurrences + [OccurrenceRow(m.nextOccurrenceId, UpsertToken(m.tokens, words[|words| - 1], m.nextTokenId).id, recordId)];
      assert r.occurrences[..|s.occurrences|] == m.occurrences[..|s.occurrences|];
    }
  }

  // ---------------------------------------------------------------- methods

  /** The token table and the occurrence table of `db` with their counters. */
  function LinksOf(db: Index): Links
    reads db
  {
    Links(db.tokens, db.occurrences, db.nextTokenId, db.nextOccurrenceId)
  }

  /** `for token in tokens: ... insert_token(token.lower()) ...
      insert_token_occurrence(token_id, record_id)` for one record. */
  method LinkTokens(db: Index, text: string, recordId: int)
    requires db.Valid()
    modifies db`tokens, db`nextTokenId, db`occurrences, db`nextOccurrenceId
    ensures db.Valid()
    ensures LinksOf(db) == LinkWords(old(LinksOf(db)), Words(text), recordId)
  {
    var words := Words(text);
    ghost var s0 := LinksOf(db);
    var j := 0;
    while j < |words|
      invariant 0 <= j <= |words|
      invariant db.Valid()
      invariant LinksOf(db) == LinkWords(s0, words[..j], recordId)
    {
      ghost var before := LinksOf(db);
      LinkToken(db, words[j], recordId);
      LinkWordsNext(s0, words, j, recordId, before, LinksOf(db));
      j := j + 1;
    }
    assert words[..j] == words;
  }

  /** One turn of that loop: the token row is upserted and an occurrence
      row for `recordId` appended. */
  method LinkToken(db: Index, word: string, recordId: int)
    requires db.Valid()
    modifies db`tokens, db`nextTokenId, db`occurrences, db`nextOccurrenceId
    ensures db.Valid()
    ensures LinksOf(db) == LinkWord(old(LinksOf(db)), word, recordId)
  {
    var tokenId := db.InsertToken(word);
    db.InsertTokenOccurrence(tokenId, recordId);
  }

  lemma LinkWordsNext(s: Links, words: seq<string>, j: nat, recordId: int, before: Links, after: Links)
    requires j < |words|
    requires before == LinkWords(s, words[..j], recordId)
    requires after == LinkWord(before, words[j], recordId)
    ensures after == LinkWords(s, words[..j + 1], recordId)
  {
    assert words[..j + 1][..j] == words[..j];
  }

  /** `_parse_records(data)`: the data is turned into text, split into
      segments, and every non-blank segment is stored as a record with its
      byte range and its token links. Blank segments only move the cursor.
      Only the empty literal separator fails, before anything is stored. */
  method ParseRecords(db: Index, data: seq<byte>, separator: string,
                      decodeText: seq<byte> -> string, regexSplit: RegexSplit)
    returns (err: Option<SplitError>)
    requires db.Valid()
    modifies db`records, db`nextRecordId, db`tokens, db`nextTokenId, db`occurrences, db`nextOccurrenceId
    ensures db.Valid()
    ensures old(db.Consistent()) ==> db.Consistent()
    ensures var split := SplitRecords(decodeText(data), separator, regexSplit);
      && (split.Failure? ==>
            && err == Some(split.error) && db.records == old(db.records)
            && db.nextRecordId == old(db.nextRecordId) && LinksOf(db) == old(LinksOf(db)))
      && (split.Success? ==>
            var placed := Layout(split.value, |split.value|);
            && err.None?
            && db.records == old(db.records) + RecordRows(placed, old(db.nextRecordId))
            && db.nextRecordId == old(db.nextRecordId) + |placed|
            && LinksOf(db) == LinkRecords(old(LinksOf(db)), split.value, placed, old(db.nextRecordId)))
  {
    var text := decodeText(data);
    var split := SplitRecords(text, separator, regexSplit);
    if split.Failure? {
      return Some(split.error);
    }
    err := None;
    StoreRecords(db, split.value);
  }

  /** What the ingestion loop keeps after the first `i` segments: `placed`
      are the records stored so far and `pos` the cursor, as `Layout` and
      `Cursor` describe them, and the tables hold the records that were
      there before (`records0`, with `s0` their token links and `firstId`
      the next record id) followed by exactly these rows and links. */
  ghost predicate Progress(db: Index, parts: seq<string>, i: nat, pos: nat, placed: seq<Placed>,
                           records0: seq<RecordRow>, firstId: int, s0: Links)
    reads db
  {
    && i <= |parts|
    && db.Valid()
    && placed == Layout(parts, i) && pos == Cursor(parts, i)
    && db.records == records0 + RecordRows(placed, firstId)
    && db.nextRecordId == firstId + |placed|
    && InParts(parts, placed)
    && LinksOf(db) == LinkRecords(s0, parts, placed, firstId)
  }

  /** Before the first segment nothing is stored. */
  lemma ProgressStart(db: Index, parts: seq<string>, records0: seq<RecordRow>, firstId: int, s0: Links)
    requires db.Valid() && db.records == records0 && db.nextRecordId == firstId && LinksOf(db) == s0
    ensures Progress(db, parts, 0, 0, [], records0, firstId, s0)
  {
    assert records0 + RecordRows([], firstId) == records0;
  }

  /** After the last segment everything is stored. */
  lemma ProgressEnd(db: Index, parts: seq<string>, pos: nat, placed: seq<Placed>,
                    records0: seq<RecordRow>, firstId: int, s0: Links)
    requires Progress(db, parts, |parts|, pos, placed, records0, firstId, s0)
    ensures db.Valid()
    ensures placed == Layout(parts, |parts|) && InParts(parts, placed)
    ensures db.records == records0 + RecordRows(placed, firstId)
    ensures db.nextRecordId == firstId + |placed|
    ensures LinksOf(db) == LinkRecords(s0, parts, placed, firstId)
  {
  }

  /** What `_parse_records` does once the text is split: every non-blank
      segment is stored with its token links, and the tables stay valid
      and consistent. */
  method StoreRecords(db: Index, parts: seq<string>)
    requires db.Valid()
    modifies db`records, db`nextRecordId, db`tokens, db`nextTokenId, db`occurrences, db`nextOccurrenceId
    ensures db.Valid()
    ensures old(db.Consistent()) ==> db.Consistent()
    ensures var placed := Layout(parts, |parts|);
      && db.records == old(db.records) + RecordRows(placed, old(db.nextRecordId))
      && db.nextRecordId == old(db.nextRecordId) + |placed|
      && LinksOf(db) == LinkRecords(old(LinksOf(db)), parts, placed, old(db.nextRecordId))
  {
    ghost var s0, firstId := LinksOf(db), db.nextRecordId;
    ghost var placed := StoreSegments(db, parts);
    LinkRecordsKeeps(s0, parts, placed, firstId);
  }

  /** The loop of `_parse_records` over the segments: the cursor `pos`
      moves past every segment and its separator, and each non-blank
      segment becomes a record at the cursor with its token links.
      `placed` is what was stored, as `Layout` describes it. */
  method StoreSegments(db: Index, parts: seq<string>) returns (ghost placed: seq<Placed>)
    requires db.Valid()
    modifies db`records, db`nextRecordId, db`tokens, db`nextTokenId, db`occurrences, db`nextOccurrenceId
    ensures db.Valid()
    ensures placed == Layout(parts, |parts|) && InParts(parts, placed)
    ensures db.records == old(db.records) + RecordRows(placed, old(db.nextRecordId))
    ensures db.nextRecordId == old(db.nextRecordId) + |placed|
    ensures LinksOf(db) == LinkRecords(old(LinksOf(db)), parts, placed, old(db.nextRecordId))
  {
    ghost var records0, firstId, s0 := db.records, db.nextRecordId, LinksOf(db);
    ProgressStart(db, parts, records0, firstId, s0);
    var pos;
    pos, placed := StoreLoop(db, parts, records0, firstId, s0);
    ProgressEnd(db, parts, pos, placed, records0, firstId, s0);
  }

  /** The loop itself, from the first segment to the last, keeping
      `Progress`. */
  method StoreLoop(db: Index, parts: seq<string>, ghost records0: seq<RecordRow>, ghost firstId: int, ghost s0: Links)
    returns (pos: nat, ghost placed: seq<Placed>)
    requires Progress(db, parts, 0, 0, [], records0, firstId, s0)
    modifies db`records, db`nextRecordId, db`tokens, db`nextTokenId, db`occurrences, db`nextOccurrenceId
    ensures Progress(db, parts, |parts|, pos, placed, records0, firstId, s0)
  {
    placed := [];
    pos := 0;
    var i := 0;
    while i < |parts|
      invariant Progress(db, parts, i, pos, placed, records0, firstId, s0)
    {
      pos, placed := StoreStep(db, parts, i, pos, placed, records0, firstId, s0);
      i := i + 1;
    }
  }

  /** One turn of that loop: a segment that strips to nothing only moves
      the cursor past itself and its separator; any other is stored. The
      ghost parameters are the records, the first record id and the token
      links before the loop, and the records stored so far. */
  method StoreStep(db: Index, parts: seq<string>, i: nat, pos: nat, ghost placed: seq<Placed>,
                   ghost records0: seq<RecordRow>, ghost firstId: int, ghost s0: Links)
    returns (pos': nat, ghost placed': seq<Placed>)
    requires i < |parts| && Progress(db, parts, i, pos, placed, records0, firstId, s0)
    modifies db`records, db`nextRecordId, db`tokens, db`nextTokenId, db`occurrences, db`nextOccurrenceId
    ensures Progress(db, parts, i + 1, pos', placed', records0, firstId, s0)
  {
    var p := parts[i];
    if Strip(p) == [] {
      LayoutSkip(parts, i, placed, pos);
      pos' := pos + Utf8Length(p) + 1;
      placed' := placed;
    } else {
      pos', placed' := StoreNonBlank(db, parts, i, pos, placed, records0, firstId, s0);
    }
  }

  /** A non-blank segment: it is stored as a record, then its tokens are
      linked to that record. */
  method StoreNonBlank(db: Index, parts: seq<string>, i: nat, pos: nat, ghost placed: seq<Placed>,
                       ghost records0: seq<RecordRow>, ghost firstId: int, ghost s0: Links)
    returns (pos': nat, ghost placed': seq<Placed>)
    requires i < |parts| && Strip(parts[i]) != []
    requires db.Valid()
    requires placed == Layout(parts, i) && pos == Cursor(parts, i)
    requires db.records == records0 + RecordRows(placed, firstId)
    requires db.nextRecordId == firstId + |placed|
    requires InParts(parts, placed)
    requires LinksOf(db) == LinkRecords(s0, parts, placed, firstId)
    modifies db`records, db`nextRecordId, db`tokens, db`nextTokenId, db`occurrences, db`nextOccurrenceId
    ensures db.Valid()
    ensures placed' == Layout(parts, i + 1) && pos' == Cursor(parts, i + 1)
    ensures db.records == records0 + RecordRows(placed', firstId)
    ensures db.nextRecordId == firstId + |placed'|
    ensures InParts(parts, placed')
    ensures LinksOf(db) == LinkRecords(s0, parts, placed', firstId)
  {
    var recordId, start, end;
    pos', placed', recordId, start, end := PlaceRecord(db, parts, i, pos, placed, records0, firstId);
    LinkRecord(db, parts, i, start, end, recordId, placed, firstId, s0);
  }

  /** `start_pos` is the cursor, `end_pos` adds the UTF-8 length of the
      segment, `insert_record(start_pos, end_pos)` stores the record, and
      the cursor moves one past `end_pos`. */
  method PlaceRecord(db: Index, parts: seq<string>, i: nat, pos: nat, ghost placed: seq<Placed>,
                     ghost records0: seq<RecordRow>, ghost firstId: int)
    returns (pos': nat, ghost placed': seq<Placed>, recordId: int, start: nat, end: nat)
    requires i < |parts| && Strip(parts[i]) != []
    requires db.Valid()
    requires placed == Layout(parts, i) && pos == Cursor(parts, i)
    requires db.records == records0 + RecordRows(placed, firstId)
    requires db.nextRecordId == firstId + |placed|
    requires InParts(parts, placed)
    modifies db`records, db`nextRecordId
    ensures db.Valid()
    ensures placed' == Layout(parts, i + 1) && pos' == Cursor(parts, i + 1)
    ensures placed' == placed + [Placed(i, start, end)]
    ensures db.records == records0 + RecordRows(placed', firstId)
    ensures db.nextRecordId == firstId + |placed'|
    ensures InParts(parts, placed')
    ensures recordId == firstId + |placed|
  {
    var p := parts[i];
    LayoutStore(parts, i, placed, pos);
    start := pos;
    end := pos + Utf8Length(p);
    RecordRowsSnoc(records0, placed, i, start, end, firstId);
    recordId := db.InsertRecord(start, end);
    placed' := placed + [Placed(i, start, end)];
    pos' := end + 1;
  }

  /** The token links of the record just stored under `recordId`. */
  method LinkRecord(db: Index, parts: seq<string>, i: nat, start: nat, end: nat, recordId: int,
                    ghost placed: seq<Placed>, ghost firstId: int, ghost s0: Links)
    requires i < |parts| && InParts(parts, placed) && recordId == firstId + |placed|
    requires db.Valid()
    requires LinksOf(db) == LinkRecords(s0, parts, placed, firstId)
    modifies db`tokens, db`nextTokenId, db`occurrences, db`nextOccurrenceId
    ensures db.Valid()
    ensures InParts(parts, placed + [Placed(i, start, end)])
    ensures LinksOf(db) == LinkRecords(s0, parts, placed + [Placed(i, start, end)], firstId)
  {
    ghost var before := LinksOf(db);
    LinkTokens(db, parts[i], recordId);
    LinkRecordsNext(s0, parts, placed, i, start, end, firstId, before, LinksOf(db));
  }

  /** Why `parse_file` fails: the decoder raised, or the literal
      separator was empty. */
  datatype ParseError = DecodeFailed(error: Decoder.CodecError) | SplitFailed(split: SplitError)

  /** `_read_and_decode_file`: the bytes are decoded unless the encoding
      is exactly `none`. */
  function DecodedData(fileData: seq<byte>, encoding: string, codecs: Decoder.Codecs): (r: Result<seq<byte>, Decoder.CodecError>)
    ensures encoding == "none" ==> r == Success(fileData)
    ensures encoding != "none" ==> r == Decoder.Decode(fileData, encoding, codecs)
  {
    if encoding != "none" then Decoder.Decode(fileData, encoding, codecs) else Success(fileData)
  }

  /** `parse_file(filepath)`: the encoding row, then the file row pointing
      at it, then the records of the decoded contents. `fileData` stands
      for the bytes read from the file. */
  method ParseFile(db: Index, filepath: string, encoding: string, separator: string,
                   fileData: seq<byte>, codecs: Decoder.Codecs,
                   decodeText: seq<byte> -> string, regexSplit: RegexSplit)
    returns (err: Option<ParseError>)
    requires db.Valid()
    modifies db
    ensures db.Valid()
    ensures old(db.Consistent()) ==> db.Consistent()
    ensures db.encodings == old(db.encodings) + [EncodingRow(old(db.nextEncodingId), encoding)]
    ensures db.files == old(db.files) + [FileRow(old(db.nextFileId), filepath, old(db.nextEncodingId))]
    ensures db.nextEncodingId == old(db.nextEncodingId) + 1 && db.nextFileId == old(db.nextFileId) + 1
    ensures DecodedData(fileData, encoding, codecs).Failure? ==>
      && err == Some(DecodeFailed(DecodedData(fileData, encoding, codecs).error))
      && db.records == old(db.records) && db.nextRecordId == old(db.nextRecordId)
      && LinksOf(db) == old(LinksOf(db))
    ensures DecodedData(fileData, encoding, codecs).Success? ==>
      var split := SplitRecords(decodeText(DecodedData(fileData, encoding, codecs).value), separator, regexSplit);
      && (split.Failure? ==>
            && err == Some(SplitFailed(split.error)) && db.records == old(db.records)
            && db.nextRecordId == old(db.nextRecordId) && LinksOf(db) == old(LinksOf(db)))
      && (split.Success? ==>
            var placed := Layout(split.value, |split.value|);
            && err.None?
            && db.records == old(db.records) + RecordRows(placed, old(db.nextRecordId))
            && db.nextRecordId == old(db.nextRecordId) + |placed|
            && LinksOf(db) == LinkRecords(old(LinksOf(db)), split.value, placed, old(db.nextRecordId)))
  {
    var encodingId := db.InsertEncoding(encoding);
    var fileId := db.InsertFile(filepath, encodingId);
    var decoded := DecodedData(fileData, encoding, codecs);
    if decoded.Failure? {
      return Some(DecodeFailed(decoded.error));
    }
    var splitErr := ParseRecords(db, decoded.value, separator, decodeText, regexSplit);
    if splitErr.Some? {
      return Some(SplitFailed(splitErr.value));
    }
    err := None;
  }

  /** What truncating and parsing leave: the error, if any, the record
      rows and the token links, starting from empty tables whose id
      counters are `nextRecordId`, `nextTokenId` and `nextOccurrenceId`. */
  datatype Parsed = Parsed(err: Option<ParseError>, records: seq<RecordRow>, links: Links)

  /** The tables `parse_file` builds on truncated tables: nothing when
      decoding or splitting fails, otherwise one row per laid-out record
      and the links of every record's words. */
  function ParsedTables(fileData: seq<byte>, encoding: string, separator: string, codecs: Decoder.Codecs,
                        decodeText: seq<byte> -> string, regexSplit: RegexSplit,
                        nextRecordId: int, nextTokenId: int, nextOccurrenceId: int): Parsed
  {
    var empty := Links([], [], nextTokenId, nextOccurrenceId);
    var decoded := DecodedData(fileData, encoding, codecs);
    if decoded.Failure? then Parsed(Some(DecodeFailed(decoded.error)), [], empty)
    else
      var split := SplitRecords(decodeText(decoded.value), separator, regexSplit);
      if split.Failure? then Parsed(Some(SplitFailed(split.error)), [], empty)
      else
        var placed := Layout(split.value, |split.value|);
        Parsed(None, RecordRows(placed, nextRecordId), LinkRecords(empty, split.value, placed, nextRecordId))
  }

  /** The imported tables are a valid index whose every token count is
      its number of occurrence rows, and a failed parse stores nothing. */
  lemma ParsedTablesConsistent(fileData: seq<byte>, encoding: string, separator: string, codecs: Decoder.Codecs,
                               decodeText: seq<byte> -> string, regexSplit: RegexSplit,
                               nextRecordId: int, nextTokenId: int, nextOccurrenceId: int)
    ensures var p := ParsedTables(fileData, encoding, separator, codecs, decodeText, regexSplit,
                                  nextRecordId, nextTokenId, nextOccurrenceId);
      && LinksValid(p.links) && CountsMatch(p.links.tokens, p.links.occurrences)
      && (p.err.Some? ==> p.records == [] && p.links.tokens == [] && p.links.occurrences == [])
  {
    var empty := Links([], [], nextTokenId, nextOccurrenceId);
    var decoded := DecodedData(fileData, encoding, codecs);
    if decoded.Success? {
      var split := SplitRecords(decodeText(decoded.value), separator, regexSplit);
      if split.Success? {
        LinkRecordsKeeps(empty, split.value, Layout(split.value, |split.value|), nextRecordId);
      }
    }
  }

  /** `do_import` of nixindex.py once `parse_chunk_size` has accepted the
      chunk size (which only `parse_file`'s messages use): the tables are
      truncated, the file is parsed, and the acuity filter runs only for a
      positive `acuity` and only when parsing did not fail. The new index
      holds this one encoding and file and the parsed records; its tokens
      and occurrences are the parsed ones, less the tokens rarer than
      `acuity` and their occurrences when the filter ran. */
  method Import(db: Index, filepath: string, encoding: string, separator: string,
                fileData: seq<byte>, codecs: Decoder.Codecs,
                decodeText: seq<byte> -> string, regexSplit: RegexSplit, acuity: int)
    returns (err: Option<ParseError>, deleted: nat)
    requires db.Valid()
    modifies db
    ensures db.Valid() && db.Consistent()
    ensures db.encodings == [EncodingRow(old(db.nextEncodingId), encoding)]
    ensures db.files == [FileRow(old(db.nextFileId), filepath, old(db.nextEncodingId))]
    ensures db.nextEncodingId == old(db.nextEncodingId) + 1 && db.nextFileId == old(db.nextFileId) + 1
    ensures var p := ParsedTables(fileData, encoding, separator, codecs, decodeText, regexSplit,
                                  old(db.nextRecordId), old(db.nextTokenId), old(db.nextOccurrenceId));
      && err == p.err && db.records == p.records
      && db.nextRecordId == old(db.nextRecordId) + |p.records|
      && (err.Some? || acuity <= 0 ==> deleted == 0 && LinksOf(db) == p.links)
      && (err.None? && acuity > 0 ==>
            deleted == |LowIds(p.links.tokens, acuity)| && LinksOf(db) == Pruned(p.links, acuity))
    ensures err.None? && acuity > 0 ==> forall t :: t in db.tokens ==> t.count >= acuity
  {
    err := Reload(db, filepath, encoding, separator, fileData, codecs, decodeText, regexSplit);
    if err.Some? {
      return err, 0;
    }
    deleted := Sift(db, acuity);
  }

  /** The last step of `do_import`: the acuity filter runs only for a
      positive `acuity`. */
  method Sift(db: Index, acuity: int) returns (deleted: nat)
    requires db.Valid() && db.Consistent()
    modifies db`tokens, db`occurrences
    ensures db.Valid() && db.Consistent()
    ensures acuity <= 0 ==> deleted == 0 && LinksOf(db) == old(LinksOf(db))
    ensures acuity > 0 ==>
      && deleted == |LowIds(old(db.tokens), acuity)|
      && LinksOf(db) == Pruned(old(LinksOf(db)), acuity)
      && forall t :: t in db.tokens ==> t.count >= acuity
  {
    deleted := 0;
    if acuity > 0 {
      deleted := db.ApplyAcuityFilter(acuity);
    }
  }

  /** The token links after the acuity filter: the tokens counted fewer
      than `minCount` times and their occurrences are gone, and the id
      counters stay. */
  function Pruned(links: Links, minCount: int): Links
  {
    var low := Elements(LowIds(links.tokens, minCount));
    Links(DeleteTokens(links.tokens, low), DeleteOccurrences(links.occurrences, low),
          links.nextTokenId, links.nextOccurrenceId)
  }

  /** The truncate-then-parse half of `do_import`: the index holds this
      one encoding and file and exactly the parsed tables. */
  method Reload(db: Index, filepath: string, encoding: string, separator: string,
                fileData: seq<byte>, codecs: Decoder.Codecs,
                decodeText: seq<byte> -> string, regexSplit: RegexSplit)
    returns (err: Option<ParseError>)
    requires db.Valid()
    modifies db
    ensures db.Valid() && db.Consistent()
    ensures db.encodings == [EncodingRow(old(db.nextEncodingId), encoding)]
    ensures db.files == [FileRow(old(db.nextFileId), filepath, old(db.nextEncodingId))]
    ensures db.nextEncodingId == old(db.nextEncodingId) + 1 && db.nextFileId == old(db.nextFileId) + 1
    ensures var p := ParsedTables(fileData, encoding, separator, codecs, decodeText, regexSplit,
                                  old(db.nextRecordId), old(db.nextTokenId), old(db.nextOccurrenceId));
      && err == p.err && db.records == p.records && db.nextRecordId == old(db.nextRecordId) + |p.records|
      && LinksOf(db) == p.links
    ensures err.Some? ==> db.records == [] && db.tokens == [] && db.occurrences == []
  {
    db.TruncateTables();
    err := ParseFile(db, filepath, encoding, separator, fileData, codecs, decodeText, regexSplit);
  }
}
